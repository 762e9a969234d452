/** The style vocabulary of src/styles.rs that layout depends on: ranges of
    dimensions and their clamping, the visual orders and their reversal,
    container levels, and the `Styles` component map with its inheritance
    rules. A component's value is left generic; how a stored component is
    resolved to a typed value (`resolve_component`, which may follow
    dynamic components) is a parameter. */
module CushyStyles {
  import opened Common

  /** `Dimension`: physical or logical pixels. */
  datatype Dimension = Px(px: int) | Lp(lp: int)

  /** `std::ops::Bound<Dimension>`. */
  datatype Bound = Unbounded | Included(value: Dimension) | Excluded(value: Dimension)

  /** `DimensionRange`. */
  datatype DimensionRange = DimensionRange(start: Bound, end: Bound)

  /** The amount of a dimension in its own unit. */
  function Amount(d: Dimension): int
  {
    match d
    case Px(p) => p
    case Lp(l) => l
  }

  /** The same unit as `d`, with amount `n`. */
  function WithAmount(d: Dimension, n: int): (r: Dimension)
    ensures Amount(r) == n && r.Px? == d.Px?
  {
    match d
    case Px(_) => Px(n)
    case Lp(_) => Lp(n)
  }

  /** `DimensionRange::default`: no bounds at all. */
  function DefaultRange(): (r: DimensionRange)
    ensures r.start.Unbounded? && r.end.Unbounded?
  {
    DimensionRange(Unbounded, Unbounded)
  }

  /** `DimensionRange::minimum`: an included start, one more than an
      excluded start, nothing for an unbounded start. */
  function Minimum(r: DimensionRange): (m: Option<Dimension>)
    ensures m.None? <==> r.start.Unbounded?
    ensures r.start.Included? ==> m == Some(r.start.value)
    ensures r.start.Excluded? ==> m == Some(WithAmount(r.start.value, Amount(r.start.value) + 1))
  {
    match r.start
    case Unbounded => None
    case Excluded(Lp(lp)) => Some(Lp(lp + 1))
    case Excluded(Px(px)) => Some(Px(px + 1))
    case Included(value) => Some(value)
  }

  /** `DimensionRange::maximum`: an included end, one less than an excluded
      end, nothing for an unbounded end. */
  function Maximum(r: DimensionRange): (m: Option<Dimension>)
    ensures m.None? <==> r.end.Unbounded?
    ensures r.end.Included? ==> m == Some(r.end.value)
    ensures r.end.Excluded? ==> m == Some(WithAmount(r.end.value, Amount(r.end.value) - 1))
  {
    match r.end
    case Unbounded => None
    case Excluded(Lp(lp)) => Some(Lp(lp - 1))
    case Excluded(Px(px)) => Some(Px(px - 1))
    case Included(value) => Some(value)
  }

  /** Whether an amount `n` (in the bound's unit) is admitted by a start
      bound. */
  predicate AdmitsAbove(b: Bound, n: int)
  {
    match b
    case Unbounded => true
    case Included(v) => n >= Amount(v)
    case Excluded(v) => n > Amount(v)
  }

  /** Whether an amount `n` (in the bound's unit) is admitted by an end
      bound. */
  predicate AdmitsBelow(b: Bound, n: int)
  {
    match b
    case Unbounded => true
    case Included(v) => n <= Amount(v)
    case Excluded(v) => n < Amount(v)
  }

  /** The minimum is the least amount the start bound admits, and the
      maximum the greatest amount the end bound admits. */
  lemma MinimumMaximumAreExtremes(r: DimensionRange, n: int)
    ensures AdmitsAbove(r.start, n) <==> Minimum(r).None? || n >= Amount(Minimum(r).value)
    ensures AdmitsBelow(r.end, n) <==> Maximum(r).None? || n <= Amount(Maximum(r).value)
  {
  }

  /** `DimensionRange::exact_dimension` as written: only an excluded start
      equal to an included end is exact. */
  function ExactDimensionAsWritten(r: DimensionRange): (e: Option<Dimension>)
    ensures e.Some? <==> r.start.Excluded? && r.end.Included? && r.start.value == r.end.value
    ensures e.Some? ==> e.value == r.start.value
  {
    match (r.start, r.end)
    case (Excluded(s), Included(e)) => if s == e then Some(s) else None
    case _ => None
  }

  /** `exact_dimension` as evidently intended: a range from a dimension to
      itself, both ends included, which is what `From<Dimension>` builds. */
  function ExactDimension(r: DimensionRange): (e: Option<Dimension>)
    ensures e.Some? <==> r.start.Included? && r.end.Included? && r.start.value == r.end.value
    ensures e.Some? ==> e.value == r.start.value
  {
    match (r.start, r.end)
    case (Included(s), Included(e)) => if s == e then Some(s) else None
    case _ => None
  }

  /** `From<T: Into<Dimension>>`: the range `d..=d`. */
  function FromDimension(d: Dimension): (r: DimensionRange)
    ensures Minimum(r) == Some(d) && Maximum(r) == Some(d)
  {
    FromRangeInclusive(d, d)
  }

  /** `From<Range>`: `a..b`. */
  function FromRange(a: Dimension, b: Dimension): DimensionRange
  {
    DimensionRange(Included(a), Excluded(b))
  }

  /** `From<RangeFull>`: `..`. */
  function FromRangeFull(): DimensionRange
  {
    DimensionRange(Unbounded, Unbounded)
  }

  /** `From<RangeInclusive>`: `a..=b`. */
  function FromRangeInclusive(a: Dimension, b: Dimension): DimensionRange
  {
    DimensionRange(Included(a), Included(b))
  }

  /** `From<RangeFrom>`: `a..`. */
  function FromRangeFrom(a: Dimension): DimensionRange
  {
    DimensionRange(Included(a), Unbounded)
  }

  /** `From<RangeTo>`: `..b`. */
  function FromRangeTo(b: Dimension): DimensionRange
  {
    DimensionRange(Unbounded, Excluded(b))
  }

  /** `From<RangeToInclusive>`: `..=b`. */
  function FromRangeToInclusive(b: Dimension): DimensionRange
  {
    DimensionRange(Unbounded, Included(b))
  }

  /** Each conversion admits exactly the amounts of the Rust range it comes
      from: `a..b` from `a` up to `b - 1`, `a..=b` up to `b`, and so on. */
  lemma ConversionsAdmitTheirRange(a: Dimension, b: Dimension, n: int)
    ensures var r := FromRange(a, b);
      AdmitsAbove(r.start, n) && AdmitsBelow(r.end, n) <==> Amount(a) <= n < Amount(b)
    ensures var r := FromRangeInclusive(a, b);
      AdmitsAbove(r.start, n) && AdmitsBelow(r.end, n) <==> Amount(a) <= n <= Amount(b)
    ensures var r := FromRangeFrom(a);
      AdmitsAbove(r.start, n) && AdmitsBelow(r.end, n) <==> Amount(a) <= n
    ensures var r := FromRangeTo(b);
      AdmitsAbove(r.start, n) && AdmitsBelow(r.end, n) <==> n < Amount(b)
    ensures var r := FromRangeToInclusive(b);
      AdmitsAbove(r.start, n) && AdmitsBelow(r.end, n) <==> n <= Amount(b)
    ensures var r := FromRangeFull();
      AdmitsAbove(r.start, n) && AdmitsBelow(r.end, n) && IsUnbounded(r)
  {
  }

  /** As written, a range made from a single dimension is never exact, so
      `Resize::to` with an exact size never takes its exact-size path; the
      corrected check recognises it. */
  lemma ExactDimensionAsWrittenMissesSingle(d: Dimension)
    ensures ExactDimensionAsWritten(FromDimension(d)).None?
    ensures ExactDimension(FromDimension(d)) == Some(d)
  {
  }

  /** The corrected check recognises exactly the single-dimension ranges. */
  lemma ExactDimensionIsSingle(r: DimensionRange, d: Dimension)
    ensures ExactDimension(r) == Some(d) <==> r == FromDimension(d)
  {
  }

  /** `DimensionRange::is_unbounded`. */
  predicate IsUnbounded(r: DimensionRange)
  {
    r.start.Unbounded? && r.end.Unbounded?
  }

  /** `DimensionRange::clamp`: raises `size` to the minimum, then lowers it
      to the maximum, each converted to unsigned pixels by `toUpx` (which
      stands for `into_upx` at the current scale). */
  function Clamp(r: DimensionRange, size: UPx, toUpx: Dimension -> UPx): (c: UPx)
    ensures Maximum(r).Some? ==> c <= toUpx(Maximum(r).value)
    ensures Minimum(r).Some? && (Maximum(r).None? || toUpx(Minimum(r).value) <= toUpx(Maximum(r).value))
      ==> c >= toUpx(Minimum(r).value)
    ensures ((Minimum(r).None? || toUpx(Minimum(r).value) <= size)
             && (Maximum(r).None? || size <= toUpx(Maximum(r).value))) ==> c == size
    ensures c == size || (Minimum(r).Some? && c == toUpx(Minimum(r).value))
      || (Maximum(r).Some? && c == toUpx(Maximum(r).value))
  {
    var raised := if Minimum(r).Some? then Max(size, toUpx(Minimum(r).value)) else size;
    if Maximum(r).Some? then Min(raised, toUpx(Maximum(r).value)) else raised
  }

  /** Clamping is idempotent. */
  lemma ClampIdempotent(r: DimensionRange, size: UPx, toUpx: Dimension -> UPx)
    ensures Clamp(r, Clamp(r, size, toUpx), toUpx) == Clamp(r, size, toUpx)
  {
  }

  /** `HorizontalOrder`. */
  datatype HorizontalOrder = LeftToRight | RightToLeft

  /** `VerticalOrder`. */
  datatype VerticalOrder = TopToBottom | BottomToTop

  /** `VisualOrder`. */
  datatype VisualOrder = VisualOrder(horizontal: HorizontalOrder, vertical: VerticalOrder)

  /** `HorizontalOrder::rev`. */
  function RevHorizontal(o: HorizontalOrder): (r: HorizontalOrder)
    ensures r != o
  {
    match o
    case LeftToRight => RightToLeft
    case RightToLeft => LeftToRight
  }

  /** `VerticalOrder::rev`. */
  function RevVertical(o: VerticalOrder): (r: VerticalOrder)
    ensures r != o
  {
    match o
    case TopToBottom => BottomToTop
    case BottomToTop => TopToBottom
  }

  /** `VisualOrder::rev`: both directions reversed. */
  function RevVisual(o: VisualOrder): (r: VisualOrder)
    ensures r.horizontal != o.horizontal && r.vertical != o.vertical
  {
    VisualOrder(RevHorizontal(o.horizontal), RevVertical(o.vertical))
  }

  /** Reversing twice gives the order back. */
  lemma RevIsInvolution(h: HorizontalOrder, v: VerticalOrder, o: VisualOrder)
    ensures RevHorizontal(RevHorizontal(h)) == h
    ensures RevVertical(RevVertical(v)) == v
    ensures RevVisual(RevVisual(o)) == o
  {
  }

  /** `VisualOrder::left_to_right` and `right_to_left` are each other's
      reversal in the horizontal direction and share the vertical one. */
  lemma LeftToRightAndRightToLeft()
    ensures var ltr := VisualOrder(LeftToRight, TopToBottom);
      var rtl := VisualOrder(RightToLeft, TopToBottom);
      ltr.horizontal == RevHorizontal(rtl.horizontal) && ltr.vertical == rtl.vertical
  {
  }

  /** `ContainerLevel`, lowest first (its derived order). */
  datatype ContainerLevel = Lowest | Low | Mid | High | Highest

  /** The position of a level in the derived order. */
  function Rank(l: ContainerLevel): (n: nat)
    ensures n < 5
  {
    match l
    case Lowest => 0
    case Low => 1
    case Mid => 2
    case High => 3
    case Highest => 4
  }

  /** `ContainerLevel::next`. */
  function NextLevel(l: ContainerLevel): (r: Option<ContainerLevel>)
    ensures r.None? <==> l == Highest
    ensures r.Some? ==> Rank(r.value) == Rank(l) + 1
  {
    match l
    case Lowest => Some(Low)
    case Low => Some(Mid)
    case Mid => Some(High)
    case High => Some(Highest)
    case Highest => None
  }

  /** Levels are ordered by rank, so `next` climbs strictly, and four steps
      from the lowest level reach the highest. */
  lemma NextClimbs(l: ContainerLevel)
    ensures Rank(l) == 0 <==> l == Lowest
    ensures NextLevel(l).Some? ==> Rank(NextLevel(l).value) > Rank(l)
    ensures NextLevel(NextLevel(NextLevel(NextLevel(Lowest).value).value).value) == Some(Highest)
  {
  }

  /** `StoredComponent`: a component with its inheritance flags. */
  datatype StoredComponent<C> = StoredComponent(inherited: bool, inheritable: bool, component: C)

  /** The components of `own` plus every inheritable component of `parent`
      whose name `own` lacks, marked inherited. */
  function Inherited<C>(own: map<string, StoredComponent<C>>, parent: map<string, StoredComponent<C>>): map<string, StoredComponent<C>>
  {
    own + map k | k in parent && parent[k].inheritable && k !in own :: parent[k].(inherited := true)
  }

  /** Inheriting never overwrites an own component, adds exactly the
      missing inheritable names, and marks each addition inherited. */
  lemma InheritedKeepsOwn<C>(own: map<string, StoredComponent<C>>, parent: map<string, StoredComponent<C>>)
    ensures forall k | k in own :: k in Inherited(own, parent) && Inherited(own, parent)[k] == own[k]
    ensures forall k :: k in Inherited(own, parent) <==> k in own || (k in parent && parent[k].inheritable)
    ensures forall k | k in Inherited(own, parent) && k !in own ::
      Inherited(own, parent)[k] == parent[k].(inherited := true)
  {
  }

  /** Inheriting twice from the same parent changes nothing more. */
  lemma InheritedIdempotent<C>(own: map<string, StoredComponent<C>>, parent: map<string, StoredComponent<C>>)
    ensures Inherited(Inherited(own, parent), parent) == Inherited(own, parent)
  {
  }

  /** The inheritable components of a map. */
  function InheritableOnly<C>(m: map<string, StoredComponent<C>>): (r: map<string, StoredComponent<C>>)
    ensures forall k :: k in r <==> k in m && m[k].inheritable
    ensures forall k | k in r :: r[k] == m[k]
  {
    map k | k in m && m[k].inheritable :: m[k]
  }

  /** `Styles::into_inherited` as written: the filtered map when some
      component is not inheritable, the map itself otherwise. */
  function IntoInherited<C>(m: map<string, StoredComponent<C>>): (r: map<string, StoredComponent<C>>)
    ensures r == InheritableOnly(m)
    ensures (forall k | k in m :: m[k].inheritable) ==> r == m
  {
    if exists k | k in m :: !m[k].inheritable then InheritableOnly(m) else m
  }

  /** `Styles`: named components. `Arc::make_mut` copy-on-write is what makes
      the source's map behave as a value; here it is a field the methods
      reassign. */
  class Styles<C> {
    var components: map<string, StoredComponent<C>>

    /** `Styles::new`: no components. */
    constructor ()
      ensures components == map[]
    {
      components := map[];
    }

    /** `Styles::insert_named`: stores the component under the name,
        replacing any earlier one. */
    method InsertNamed(name: string, stored: StoredComponent<C>)
      modifies this
      ensures components == old(components)[name := stored]
    {
      components := components[name := stored];
    }

    /** `Styles::with`: inserts the component as local and inheritable. */
    method With(name: string, c: C)
      modifies this
      ensures components == old(components)[name := StoredComponent(false, true, c)]
    {
      InsertNamed(name, StoredComponent(false, true, c));
    }

    /** `Styles::try_get`: the resolved component stored under the name;
        nothing when the name is missing or does not resolve. */
    function TryGet<T>(name: string, resolve: C -> Option<T>): (r: Option<T>)
      reads this
      ensures r.Some? <==> name in components && resolve(components[name].component).Some?
      ensures r.Some? ==> r == resolve(components[name].component)
    {
      if name in components then resolve(components[name].component) else None
    }

    /** `Styles::get`: `try_get`, or the component's default. */
    function Get<T>(name: string, resolve: C -> Option<T>, default: T): (r: T)
      reads this
      ensures TryGet(name, resolve).Some? ==> r == TryGet(name, resolve).value
      ensures TryGet(name, resolve).None? ==> r == default
    {
      match TryGet(name, resolve)
      case Some(v) => v
      case None => default
    }

    /** `Styles::get_with_fallback`: the component stored under `name`, or
        else the one under `fallback`, resolved as the fallback's type; the
        fallback's default when that fails. A component stored under `name`
        that does not resolve is not replaced by the fallback's. */
    function GetWithFallback<T>(name: string, fallback: string, resolve: C -> Option<T>, default: T): (r: T)
      reads this
      ensures name in components ==> r == Get(name, resolve, default)
      ensures name !in components ==> r == Get(fallback, resolve, default)
    {
      var stored := if name in components then Some(components[name])
        else if fallback in components then Some(components[fallback])
        else None;
      if stored.Some? && resolve(stored.value.component).Some? then resolve(stored.value.component).value
      else default
    }

    /** `Styles::inherit_from`: for each of the parent's components, an
        inheritable one whose name is not already present is inserted,
        marked inherited. */
    method InheritFrom(parent: map<string, StoredComponent<C>>)
      modifies this
      ensures components == Inherited(old(components), parent)
    {
      var own := components;
      var pending := parent.Keys;
      while pending != {}
        invariant pending <= parent.Keys
        invariant components == Inherited(own, map k | k in parent && k !in pending :: parent[k])
        decreases pending
      {
        var name :| name in pending;
        var value := parent[name];
        if value.inheritable && name !in components {
          InheritStep(own, parent, pending, name);
          components := components[name := value.(inherited := true)];
        } else {
          InheritSkip(own, parent, pending, name);
        }
        pending := pending - {name};
      }
      assert (map k | k in parent && k !in pending :: parent[k]) == parent;
    }

    /** `Styles::into_inherited`, on this map. */
    function IntoInheritedComponents(): (r: map<string, StoredComponent<C>>)
      reads this
      ensures r == InheritableOnly(components)
    {
      IntoInherited(components)
    }
  }

  /** One inserted name of `inherit_from`'s loop. */
  lemma InheritStep<C>(own: map<string, StoredComponent<C>>, parent: map<string, StoredComponent<C>>,
                       pending: set<string>, name: string)
    requires name in pending && pending <= parent.Keys
    requires parent[name].inheritable
    requires name !in Inherited(own, map k | k in parent && k !in pending :: parent[k])
    ensures Inherited(own, map k | k in parent && k !in pending :: parent[k])[name := parent[name].(inherited := true)]
      == Inherited(own, map k | k in parent && k !in pending - {name} :: parent[k])
  {
  }

  /** One skipped name of `inherit_from`'s loop. */
  lemma InheritSkip<C>(own: map<string, StoredComponent<C>>, parent: map<string, StoredComponent<C>>,
                       pending: set<string>, name: string)
    requires name in pending && pending <= parent.Keys
    requires !parent[name].inheritable || name in Inherited(own, map k | k in parent && k !in pending :: parent[k])
    ensures Inherited(own, map k | k in parent && k !in pending :: parent[k])
      == Inherited(own, map k | k in parent && k !in pending - {name} :: parent[k])
  {
  }
}
