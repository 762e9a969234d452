/** The window description of the Gooey core (crates/gooey-core/src/window.rs):
    the enabled title-bar buttons as an 8-bit set, the window attributes
    with their defaults, and the builder that sets them one at a time. */
module GooeyWindow {
  import opened Common
  import GooeyMouseEvents

  /** `WindowButtons`: the 8 bits of its `u8`, least significant first. */
  type WindowButtons = b: seq<bool> | |b| == 8 witness seq(8, i => false)

  /** The set holding only bit `n`, the value `1 << n`. */
  function Flag(n: nat): (r: WindowButtons)
    requires n < 8
  {
    seq(8, i => i == n)
  }

  /** `|` on the inner `u8`, bit by bit. */
  function Union(a: WindowButtons, b: WindowButtons): (r: WindowButtons)
  {
    seq(8, i requires 0 <= i < 8 => a[i] || b[i])
  }

  /** `&` on the inner `u8`, bit by bit. */
  function Intersection(a: WindowButtons, b: WindowButtons): (r: WindowButtons)
  {
    seq(8, i requires 0 <= i < 8 => a[i] && b[i])
  }

  /** `WindowButtons::CLOSE`, `MINIMIZE` and `MAXIMIZE`: bits 0, 1 and 2. */
  const Close: WindowButtons := Flag(0)
  const Minimize: WindowButtons := Flag(1)
  const Maximize: WindowButtons := Flag(2)

  /** `WindowButtons::all`: the union of the three buttons. */
  function All(): (r: WindowButtons)
    ensures forall i :: 0 <= i < 8 ==> (r[i] <==> i < 3)
  {
    Union(Union(Close, Maximize), Minimize)
  }

  /** Whether `b & flag` is a nonzero number, as the three tests ask. */
  predicate Has(b: WindowButtons, flag: WindowButtons)
  {
    GooeyMouseEvents.ValueOf(Intersection(b, flag)) != 0
  }

  /** `WindowButtons::maximize`. */
  predicate IsMaximize(b: WindowButtons)
  {
    Has(b, Maximize)
  }

  /** `WindowButtons::minimize`. */
  predicate IsMinimize(b: WindowButtons)
  {
    Has(b, Minimize)
  }

  /** `WindowButtons::close`. */
  predicate IsClose(b: WindowButtons)
  {
    Has(b, Close)
  }

  /** Testing against a single flag tests exactly that flag's bit. */
  lemma HasFlagIsBit(b: WindowButtons, n: nat)
    requires n < 8
    ensures Has(b, Flag(n)) <==> b[n]
  {
    var m := Intersection(b, Flag(n));
    GooeyMouseEvents.ValueAboveZero(m);
    if b[n] {
      assert m[n];
    }
  }

  /** The three tests each look at their own bit, and nothing else. */
  lemma TestsAreOwnBits(b: WindowButtons)
    ensures IsClose(b) <==> b[0]
    ensures IsMinimize(b) <==> b[1]
    ensures IsMaximize(b) <==> b[2]
  {
    HasFlagIsBit(b, 0);
    HasFlagIsBit(b, 1);
    HasFlagIsBit(b, 2);
  }

  /** The constants' numbers are 1, 2 and 4, and `all()`'s is 7. */
  lemma ButtonValues()
    ensures GooeyMouseEvents.ValueOf(Close) == 1
    ensures GooeyMouseEvents.ValueOf(Minimize) == 2
    ensures GooeyMouseEvents.ValueOf(Maximize) == 4
    ensures GooeyMouseEvents.ValueOf(All()) == 7
  {
    var a := All();
    assert Close[1..] == seq(7, i => false);
    assert Minimize[1..][1..] == seq(6, i => false);
    assert Maximize[1..][1..][1..] == seq(5, i => false);
    assert a[1..][1..][1..] == seq(5, i => false);
    AllFalseIsZero(seq(7, i => false));
    AllFalseIsZero(seq(6, i => false));
    AllFalseIsZero(seq(5, i => false));
  }

  /** A sequence of clear bits is the number zero. */
  lemma {:induction false} AllFalseIsZero(b: seq<bool>)
    requires forall i :: 0 <= i < |b| ==> !b[i]
    ensures GooeyMouseEvents.ValueOf(b) == 0
  {
    if |b| > 0 {
      AllFalseIsZero(b[1..]);
    }
  }

  /** Every button of `all()` is enabled. */
  lemma AllEnablesEveryButton()
    ensures IsClose(All()) && IsMinimize(All()) && IsMaximize(All())
  {
    TestsAreOwnBits(All());
  }

  /** `figures::Size<UPx>` and `figures::Point<Px>`. */
  datatype Size = Size(width: UPx, height: UPx)
  datatype Point = Point(x: int, y: int)

  /** `WindowLevel`; `Normal` is the default. */
  datatype WindowLevel = AlwaysOnBottom | Normal | AlwaysOnTop

  /** `WindowAttributes`. */
  datatype WindowAttributes = WindowAttributes(
    innerSize: Option<Size>,
    minInnerSize: Option<Size>,
    maxInnerSize: Option<Size>,
    location: Option<Point>,
    resizable: bool,
    enabledButtons: WindowButtons,
    title: string,
    maximized: bool,
    visible: bool,
    transparent: bool,
    decorations: bool,
    resizeIncrements: Option<Size>,
    contentProtected: bool,
    windowLevel: WindowLevel,
    active: bool)

  /** `WindowAttributes::default`: a resizable, visible, decorated, active
      window titled "Gooey" at the normal level, with all buttons and no
      sizes or location. */
  function DefaultAttributes(): (a: WindowAttributes)
    ensures a.resizable && a.visible && a.decorations && a.active
    ensures !a.maximized && !a.transparent && !a.contentProtected
    ensures a.title == "Gooey" && a.windowLevel == Normal
    ensures IsClose(a.enabledButtons) && IsMinimize(a.enabledButtons) && IsMaximize(a.enabledButtons)
    ensures a.innerSize.None? && a.minInnerSize.None? && a.maxInnerSize.None?
    ensures a.location.None? && a.resizeIncrements.None?
  {
    AllEnablesEveryButton();
    WindowAttributes(None, None, None, None, true, All(), "Gooey", false, true, false, true, None, false, Normal, true)
  }

  /** `WindowBuilder`, which starts from the default attributes. */
  datatype WindowBuilder = WindowBuilder(attributes: WindowAttributes)

  /** `WindowBuilder::default`. */
  function NewBuilder(): (b: WindowBuilder)
    ensures b.attributes == DefaultAttributes()
  {
    WindowBuilder(DefaultAttributes())
  }

  /** `WindowBuilder::title`: the title is replaced and nothing else changes. */
  function WithTitle(b: WindowBuilder, title: string): (r: WindowBuilder)
    ensures r.attributes.title == title
    ensures r.attributes.(title := b.attributes.title) == b.attributes
  {
    WindowBuilder(b.attributes.(title := title))
  }

  /** `WindowBuilder::level`: the level is replaced and nothing else
      changes. */
  function WithLevel(b: WindowBuilder, level: WindowLevel): (r: WindowBuilder)
    ensures r.attributes.windowLevel == level
    ensures r.attributes.(windowLevel := b.attributes.windowLevel) == b.attributes
  {
    WindowBuilder(b.attributes.(windowLevel := level))
  }

  /** `WindowBuilder::location`: the location is set and nothing else
      changes. */
  function WithLocation(b: WindowBuilder, location: Point): (r: WindowBuilder)
    ensures r.attributes.location == Some(location)
    ensures r.attributes.(location := b.attributes.location) == b.attributes
  {
    WindowBuilder(b.attributes.(location := Some(location)))
  }

  /** `WindowBuilder::resizable`: the flag is replaced and nothing else
      changes. */
  function WithResizable(b: WindowBuilder, resizable: bool): (r: WindowBuilder)
    ensures r.attributes.resizable == resizable
    ensures r.attributes.(resizable := b.attributes.resizable) == b.attributes
  {
    WindowBuilder(b.attributes.(resizable := resizable))
  }

  /** `WindowBuilder::inner_size`: the size is set and nothing else
      changes. */
  function WithInnerSize(b: WindowBuilder, size: Size): (r: WindowBuilder)
    ensures r.attributes.innerSize == Some(size)
    ensures r.attributes.(innerSize := b.attributes.innerSize) == b.attributes
  {
    WindowBuilder(b.attributes.(innerSize := Some(size)))
  }

  /** Setters of different attributes can be applied in either order. */
  lemma SettersCommute(b: WindowBuilder, title: string, level: WindowLevel, location: Point, resizable: bool)
    ensures WithLevel(WithTitle(b, title), level) == WithTitle(WithLevel(b, level), title)
    ensures WithLocation(WithResizable(b, resizable), location) == WithResizable(WithLocation(b, location), resizable)
  {
  }

  /** A second call of the same setter overrides the first. */
  lemma SetterOverrides(b: WindowBuilder, title: string, title2: string, size: Size, size2: Size)
    ensures WithTitle(WithTitle(b, title), title2) == WithTitle(b, title2)
    ensures WithInnerSize(WithInnerSize(b, size), size2) == WithInnerSize(b, size2)
  {
  }

  /** `NewWindow`: the attributes and the widget initialiser, which is
      left out. */
  datatype NewWindow = NewWindow(attributes: WindowAttributes)

  /** `WindowBuilder::create`: the window carries the builder's attributes. */
  function Create(b: WindowBuilder): (w: NewWindow)
    ensures w.attributes == b.attributes
  {
    NewWindow(b.attributes)
  }

  /** The dynamic values of an open `Window`. */
  datatype Window = Window(innerSize: Size, location: Point, title: string)

  /** `Window::new`: the attributes' size and location, or zero when they are
      unset, and the title. */
  function OpenWindow(attrs: WindowAttributes): (w: Window)
    ensures attrs.innerSize.Some? ==> w.innerSize == attrs.innerSize.value
    ensures attrs.innerSize.None? ==> w.innerSize == Size(0, 0)
    ensures attrs.location.Some? ==> w.location == attrs.location.value
    ensures attrs.location.None? ==> w.location == Point(0, 0)
    ensures w.title == attrs.title
  {
    Window(if attrs.innerSize.Some? then attrs.innerSize.value else Size(0, 0),
           if attrs.location.Some? then attrs.location.value else Point(0, 0),
           attrs.title)
  }

  /** A window built with a size and a title opens with that size and title
      and the default location. */
  lemma BuiltWindowOpens(title: string, size: Size)
    ensures var w := OpenWindow(Create(WithInnerSize(WithTitle(NewBuilder(), title), size)).attributes);
      w == Window(size, Point(0, 0), title)
  {
  }
}
