/** The `Container` widget (src/widgets/container.rs) and the `Edges` it
    pads its child with (src/styles.rs): which background level a container
    takes, how the effective background is stored as a style component, and
    how padding shrinks the child's constraint and offsets its place. Colours
    are kludgine's packed RGBA `u32`; the theme's colour for each level is a
    parameter. */
module CushyContainer {
  import opened Common
  import opened CushyConstraint
  import opened CushyStyles

  /** `Edges<T>`, here over signed pixels. */
  datatype Edges = Edges(left: int, top: int, right: int, bottom: int)

  /** `Edges::width`. */
  function EdgesWidth(e: Edges): (w: int)
    ensures w - e.right == e.left
  {
    e.left + e.right
  }

  /** `Edges::height`. */
  function EdgesHeight(e: Edges): (h: int)
    ensures h - e.bottom == e.top
  {
    e.top + e.bottom
  }

  /** `Edges::size`: the horizontal edges make the width, the vertical ones
      the height. */
  function EdgesSize(e: Edges): (s: Size<int>)
    ensures s == Size(EdgesWidth(e), EdgesHeight(e))
  {
    Size(EdgesWidth(e), EdgesHeight(e))
  }

  /** Equal edges on all sides add up to twice the edge on each axis, and
      the size ignores which of a pair carries the padding. */
  lemma EdgesSizeSymmetric(e: Edges, p: int)
    ensures EdgesSize(Edges(p, p, p, p)) == Size(2 * p, 2 * p)
    ensures EdgesSize(Edges(e.right, e.bottom, e.left, e.top)) == EdgesSize(e)
  {
  }

  /** A packed colour. */
  datatype Color = Color(rgba: U32)

  /** `ContainerBackground`. */
  datatype ContainerBackground = Auto | BackgroundColor(color: Color) | Level(level: ContainerLevel)

  /** `EffectiveBackground`. */
  datatype EffectiveBackground = EffectiveLevel(level: ContainerLevel) | EffectiveColor(color: Color)

  /** The style components a background is stored as; every other kind of
      component is `Other`. */
  datatype Component = ColorComponent(color: Color) | LevelComponent(level: ContainerLevel) | Other(tag: nat)

  /** The effective background of a container, given its parent's: an
      explicit colour or level is used as is; `Auto` takes the level after
      the parent's, starting again from the lowest above a coloured parent
      or the highest level. */
  function Effective(b: ContainerBackground, parent: EffectiveBackground): (r: EffectiveBackground)
    ensures b.BackgroundColor? ==> r == EffectiveColor(b.color)
    ensures b.Level? ==> r == EffectiveLevel(b.level)
    ensures b.Auto? ==> r.EffectiveLevel?
    ensures b.Auto? && parent.EffectiveColor? ==> r.level == Lowest
    ensures b.Auto? && parent.EffectiveLevel? && parent.level != Highest ==> Rank(r.level) == Rank(parent.level) + 1
    ensures b.Auto? && parent == EffectiveLevel(Highest) ==> r.level == Lowest
  {
    match b
    case BackgroundColor(c) => EffectiveColor(c)
    case Level(l) => EffectiveLevel(l)
    case Auto =>
      EffectiveLevel(
        match parent
        case EffectiveColor(_) => Lowest
        case EffectiveLevel(l) => match NextLevel(l) case Some(n) => n case None => Lowest)
  }

  /** Nesting automatic containers climbs one level at a time and wraps
      after the highest: six nested inside a coloured surface reach the
      highest level and then start again. */
  lemma AutoNestingCycles(c: Color)
    ensures var l1 := Effective(Auto, EffectiveColor(c));
      var l5 := Effective(Auto, Effective(Auto, Effective(Auto, Effective(Auto, l1))));
      l1 == EffectiveLevel(Lowest) && l5 == EffectiveLevel(Highest)
      && Effective(Auto, l5) == EffectiveLevel(Lowest)
  {
  }

  /** `From<EffectiveBackground> for Component`. */
  function ToComponent(b: EffectiveBackground): (c: Component)
    ensures b.EffectiveLevel? <==> c.LevelComponent?
    ensures !c.Other?
  {
    match b
    case EffectiveLevel(l) => LevelComponent(l)
    case EffectiveColor(c) => ColorComponent(c)
  }

  /** `TryFrom<Component> for EffectiveBackground`: colours and levels
      convert; any other component is handed back as the error. */
  function FromComponent(c: Component): (r: Result<EffectiveBackground, Component>)
    ensures r.Err? <==> c.Other?
    ensures r.Err? ==> r.error == c
  {
    match c
    case ColorComponent(color) => Ok(EffectiveColor(color))
    case LevelComponent(l) => Ok(EffectiveLevel(l))
    case Other(_) => Err(c)
  }

  /** The two conversions are inverse: a background survives being stored
      as a component, and a component that converts is the one stored. */
  lemma ComponentRoundTrip(b: EffectiveBackground, c: Component)
    ensures FromComponent(ToComponent(b)) == Ok(b)
    ensures FromComponent(c).Ok? ==> ToComponent(FromComponent(c).value) == c
  {
  }

  /** `Container`: its configured background and the background it last
      attached to its styles. */
  class Container {
    var background: ContainerBackground
    var effectiveBackground: Option<EffectiveBackground>

    /** `Container::new`: an automatic background, none attached yet. */
    constructor()
      ensures background == Auto && effectiveBackground == None
    {
      background := Auto;
      effectiveBackground := None;
    }

    /** `Container::background_color`: computes the effective background,
        re-attaches it to the styles only when it changed, and returns the
        colour to paint. */
    method BackgroundColorOf(parent: EffectiveBackground, theme: ContainerLevel -> Color)
      returns (color: Color, attached: bool)
      modifies this
      ensures effectiveBackground == Some(Effective(background, parent))
      ensures background == old(background)
      ensures attached <==> old(effectiveBackground) != Some(Effective(background, parent))
      ensures color == match Effective(background, parent)
        case EffectiveColor(c) => c
        case EffectiveLevel(l) => theme(l)
    {
      var b := Effective(background, parent);
      attached := effectiveBackground != Some(b);
      if attached {
        effectiveBackground := Some(b);
      }
      color := match b
        case EffectiveColor(c) => c
        case EffectiveLevel(l) => theme(l);
    }
  }

  /** `Container::adjust_child_constraint`: each axis of the available
      space, less the padding on that axis, saturating at zero. */
  function AdjustChildConstraint(available: Size<ConstraintLimit>, padding: Edges): (r: Size<ConstraintLimit>)
    ensures r.width.Fill? == available.width.Fill? && r.height.Fill? == available.height.Fill?
    ensures r.width.px == SatSub(available.width.px, IntoUnsigned(EdgesWidth(padding)))
    ensures r.height.px == SatSub(available.height.px, IntoUnsigned(EdgesHeight(padding)))
  {
    var amount := Size(IntoUnsigned(EdgesSize(padding).width), IntoUnsigned(EdgesSize(padding).height));
    Size(Sub(available.width, amount.width), Sub(available.height, amount.height))
  }

  /** `Container::position_child`: the child sits at the top-left padding
      and the container is the child grown by the padding. */
  function PositionChild(size: Size<int>, padding: Edges): (r: (int, int, Size<UPx>))
    ensures r.0 == padding.left && r.1 == padding.top
    ensures r.2 == Size(IntoUnsigned(size.width + EdgesWidth(padding)), IntoUnsigned(size.height + EdgesHeight(padding)))
  {
    var padded := Size(size.width + EdgesSize(padding).width, size.height + EdgesSize(padding).height);
    (padding.left, padding.top, Size(IntoUnsigned(padded.width), IntoUnsigned(padded.height)))
  }

  /** With non-negative padding that fits the space offered, the child
      laid out in the reduced constraint and positioned back fills exactly
      the space offered: padding is taken away and given back. */
  lemma PaddingRoundTrip(available: Size<ConstraintLimit>, padding: Edges)
    requires padding.left >= 0 && padding.top >= 0 && padding.right >= 0 && padding.bottom >= 0
    requires EdgesWidth(padding) <= available.width.px && EdgesHeight(padding) <= available.height.px
    ensures var inner := AdjustChildConstraint(available, padding);
      PositionChild(Size(inner.width.px, inner.height.px), padding).2 == Size(available.width.px, available.height.px)
  {
  }
}
