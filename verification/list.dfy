/** The list widget of the older Gooey widgets (widgets/src/list.rs): the
    kinds of list, the marker of each item, the iterator that numbers the
    items, the builder and the widget's child list. Roman numerals come from
    an outside crate and are the parameter `roman`, from a number and
    whether it is upper case to its numeral. */
module GooeyList {
  import opened Common

  /** `i32` and its wrap-around. */
  const I32_MIN: int := -0x8000_0000
  const I32_MAX: int := 0x7FFF_FFFF
  type I32 = x: int | I32_MIN <= x <= I32_MAX

  /** `i32::wrapping_add`: the sum, moved back into range by 2^32 when it
      overflows. */
  function WrappingAdd(x: I32, y: I32): (r: I32)
    ensures r == x + y || r == x + y - 0x1_0000_0000 || r == x + y + 0x1_0000_0000
    ensures I32_MIN <= x + y <= I32_MAX ==> r == x + y
  {
    if x + y > I32_MAX then x + y - 0x1_0000_0000
    else if x + y < I32_MIN then x + y + 0x1_0000_0000
    else x + y
  }

  datatype OrderedListKind = Decimal | AlphaLower | AlphaUpper | RomanLower | RomanUpper
  datatype UnorderedListKind = NoMarker | Bullet | Circle | Square

  /** `Kind`. */
  datatype Kind =
    | Unordered(unordered: UnorderedListKind)
    | Ordered(start: Option<I32>, ordered: OrderedListKind, reversed: bool)

  /** `Kind::is_unordered`. */
  predicate IsUnordered(k: Kind)
  {
    k.Unordered?
  }

  /** `Kind::is_ordered`: the negation of `is_unordered`. */
  predicate IsOrdered(k: Kind)
  {
    !IsUnordered(k)
  }

  /** `Kind::is_unadorned`. */
  predicate IsUnadorned(k: Kind)
  {
    k.Unordered? && k.unordered == NoMarker
  }

  /** `Kind::default`: a bulleted list. */
  function DefaultKind(): (k: Kind)
    ensures IsUnordered(k) && !IsUnadorned(k)
  {
    Unordered(Bullet)
  }

  /** Every kind is exactly one of ordered and unordered, and only the
      unordered kind without a marker is unadorned. */
  lemma KindPredicates(k: Kind)
    ensures IsOrdered(k) <==> k.Ordered?
    ensures IsUnadorned(k) <==> k == Unordered(NoMarker)
    ensures IsUnadorned(k) ==> !IsOrdered(k)
  {
  }

  /** `format!("{}", value)` for an integer: a minus sign for negatives, then
      the digits. */
  function DecimalOf(v: int): string
  {
    if v < 0 then "-" + NatDigits(-v) else NatDigits(v)
  }

  /** The integer a decimal string with an optional minus sign spells. */
  function ParseInt(s: string): int
  {
    if |s| > 0 && s[0] == '-' then -(ParseNat(s[1..]) as int) else ParseNat(s)
  }

  /** Decimal formatting reads back as the same integer. */
  lemma DecimalRoundTrip(v: int)
    ensures ParseInt(DecimalOf(v)) == v
  {
    if v < 0 {
      NatDigitsRoundTrip(-v);
      assert DecimalOf(v)[1..] == NatDigits(-v);
    } else {
      NatDigitsRoundTrip(v);
    }
  }

  /** The letters of `alpha` as written, least significant first: for each
      base-26 digit `d` of `v`, the character `a + d`. */
  function AlphaDigits(v: int, a: char): (s: string)
    requires a as int + 25 <= U8_MAX
    ensures forall i :: 0 <= i < |s| ==> a <= s[i] && s[i] as int <= a as int + 25
    decreases v
  {
    if v <= 0 then "" else [(a as int + v % 26) as char] + AlphaDigits(v / 26, a)
  }

  /** `alpha` as written: the letters, then a full stop. */
  function AlphaAsWritten(v: int, a: char): string
    requires a as int + 25 <= U8_MAX
  {
    AlphaDigits(v, a) + "."
  }

  /** `alpha`: a loop that pushes one letter per base-26 digit, least
      significant first, and then a full stop. */
  method Alpha(value: I32, a: char) returns (output: string)
    requires a as int + 25 <= U8_MAX
    ensures output == AlphaAsWritten(value, a)
  {
    output := "";
    var v := value as int;
    while v > 0
      invariant output + AlphaDigits(v, a) == AlphaDigits(value, a)
      decreases v
    {
      var ch := (a as int + v % 26) as char;
      AppendAssoc(output, [ch], AlphaDigits(v / 26, a));
      output := output + [ch];
      v := v / 26;
    }
    output := output + ".";
  }

  /** The number the letters of `alpha` stand for, least significant first. */
  function AlphaDigitsValue(s: string, a: char): int
  {
    if |s| == 0 then 0 else (s[0] as int - a as int) + 26 * AlphaDigitsValue(s[1..], a)
  }

  /** `alpha` as written loses nothing: its letters read back as the number
      for every value above zero. */
  lemma {:induction false} AlphaDigitsRoundTrip(v: nat, a: char)
    requires a as int + 25 <= U8_MAX
    ensures AlphaDigitsValue(AlphaDigits(v, a), a) == v
    decreases v
  {
    if v > 0 {
      AlphaDigitsRoundTrip(v / 26, a);
      assert AlphaDigits(v, a)[1..] == AlphaDigits(v / 26, a);
    }
  }

  /** As written, no value is labelled with the first letter alone: 1 gives
      "b." and 26 gives "ab.". */
  lemma AlphaAsWrittenSkipsA(v: int)
    ensures AlphaAsWritten(1, 'a') == "b."
    ensures AlphaAsWritten(26, 'a') == "ab."
    ensures AlphaAsWritten(v, 'a') != "a."
  {
    if v > 0 && v < 26 {
      assert AlphaDigits(v / 26, 'a') == "";
      assert AlphaDigits(v, 'a') == [('a' as int + v) as char];
      assert AlphaAsWritten(v, 'a')[0] != 'a';
    } else if v >= 26 {
      assert |AlphaDigits(v / 26, 'a')| >= 1;
      assert |AlphaAsWritten(v, 'a')| >= 3;
    }
    assert AlphaDigits(0, 'a') == "";
    assert AlphaDigits(1, 'a') == "b";
  }

  /** The conventional alphabetic numbering: 1 to 26 are the letters, 27 is
      "aa", most significant letter first (bijective base 26). */
  function AlphaBijective(v: nat, a: char): (s: string)
    requires a as int + 25 <= U8_MAX
    ensures forall i :: 0 <= i < |s| ==> a <= s[i] && s[i] as int <= a as int + 25
    ensures (|s| == 0) == (v == 0)
  {
    if v == 0 then "" else AlphaBijective((v - 1) / 26, a) + [(a as int + (v - 1) % 26) as char]
  }

  /** The number a bijective base-26 string stands for. */
  function AlphaBijectiveValue(s: string, a: char): int
  {
    if |s| == 0 then 0 else 26 * AlphaBijectiveValue(s[..|s| - 1], a) + (s[|s| - 1] as int - a as int + 1)
  }

  /** The alphabetic numbering reads back as the number. */
  lemma {:induction false} AlphaBijectiveRoundTrip(v: nat, a: char)
    requires a as int + 25 <= U8_MAX
    ensures AlphaBijectiveValue(AlphaBijective(v, a), a) == v
  {
    if v > 0 {
      AlphaBijectiveRoundTrip((v - 1) / 26, a);
      var s := AlphaBijective(v, a);
      assert s[..|s| - 1] == AlphaBijective((v - 1) / 26, a);
    }
  }

  /** The corrected `alpha`: the alphabetic numbering and a full stop, or
      only the full stop for values below one, as written. */
  function AlphaLabel(v: int, a: char): (s: string)
    requires a as int + 25 <= U8_MAX
    ensures |s| >= 1 && s[|s| - 1] == '.'
  {
    (if v <= 0 then "" else AlphaBijective(v, a)) + "."
  }

  /** The corrected labels start at the first letter: values 1 to 26 are the
      single letters in order. */
  lemma AlphaLabelSingleLetters(v: int, a: char)
    requires a as int + 25 <= U8_MAX
    requires 1 <= v <= 26
    ensures AlphaLabel(v, a) == [(a as int + v - 1) as char, '.']
  {
    assert AlphaBijective((v - 1) / 26, a) == "";
  }

  /** The absolute value the Roman numerals are written for. */
  function Abs(v: int): nat
  {
    if v < 0 then -v else v
  }

  /** `item_label`: the marker of an unordered list, or the numbered label of
      an ordered one. An ordered list needs a value. */
  function ItemLabel(value: Option<I32>, kind: Kind, roman: (nat, bool) -> string): Option<string>
    requires kind.Ordered? ==> value.Some?
  {
    match kind
    case Unordered(NoMarker) => None
    case Unordered(Bullet) => Some("\U{2022}")
    case Unordered(Circle) => Some("\U{25E6}")
    case Unordered(Square) => Some("\U{25AA}")
    case Ordered(_, ordered, _) =>
      var v := value.value;
      match ordered
      case Decimal => Some(DecimalOf(v) + ".")
      case AlphaLower => Some(AlphaLabel(v, 'a'))
      case AlphaUpper => Some(AlphaLabel(v, 'A'))
      case RomanLower => Some((if v < 0 then "-" else "") + roman(Abs(v), false) + ".")
      case RomanUpper => Some((if v < 0 then "-" else "") + roman(Abs(v), true) + ".")
  }

  /** What each kind of list labels its items with: no marker, a bullet, a
      white bullet or a small square for unordered lists; for ordered lists
      a label ending in a full stop, which for decimal lists reads back as
      the value, for alphabetic lists is the alphabetic numbering and for
      Roman lists is the sign and the numeral of the absolute value. */
  lemma ItemLabelMeaning(value: Option<I32>, kind: Kind, roman: (nat, bool) -> string)
    requires kind.Ordered? ==> value.Some?
    ensures var r := ItemLabel(value, kind, roman);
      && (kind.Unordered? ==> (r.None? <==> kind.unordered == NoMarker))
      && (kind == Unordered(Bullet) ==> r == Some("\U{2022}"))
      && (kind == Unordered(Circle) ==> r == Some("\U{25E6}"))
      && (kind == Unordered(Square) ==> r == Some("\U{25AA}"))
      && (kind.Ordered? ==> r.Some? && |r.value| >= 1 && r.value[|r.value| - 1] == '.')
      && (kind.Ordered? && kind.ordered == Decimal ==> ParseInt(r.value[..|r.value| - 1]) == value.value)
      && (kind.Ordered? && kind.ordered == AlphaLower ==> r == Some(AlphaLabel(value.value, 'a')))
      && (kind.Ordered? && kind.ordered == AlphaUpper ==> r == Some(AlphaLabel(value.value, 'A')))
      && (kind.Ordered? && (kind.ordered == RomanLower || kind.ordered == RomanUpper) ==>
            r == Some((if value.value < 0 then "-" else "") + roman(Abs(value.value), kind.ordered == RomanUpper) + "."))
  {
    if kind.Ordered? && kind.ordered == Decimal {
      var v := value.value;
      DecimalRoundTrip(v);
      assert (DecimalOf(v) + ".")[..|DecimalOf(v)|] == DecimalOf(v);
    }
  }

  /** The first value `ItemLabelIterator::new` numbers with: the start, or 1. */
  function FirstValue(kind: Kind): Option<I32>
  {
    match kind
    case Unordered(_) => None
    case Ordered(start, _, _) => Some(if start.Some? then start.value else 1)
  }

  /** The step between values: -1 when reversed, 1 otherwise, 0 when
      unordered. */
  function Increment(kind: Kind): I32
  {
    match kind
    case Unordered(_) => 0
    case Ordered(_, _, reversed) => if reversed then -1 else 1
  }

  /** The value of the `i`th item: the first value moved `i` steps with
      `wrapping_add`; unordered lists have none. */
  function ValueAt(kind: Kind, i: nat): (v: Option<I32>)
    ensures v.Some? <==> kind.Ordered?
  {
    if kind.Unordered? then None
    else if i == 0 then FirstValue(kind)
    else Some(WrappingAdd(ValueAt(kind, i - 1).value, Increment(kind)))
  }

  /** While no step overflows, the `i`th value is the first moved by `i`
      increments. */
  lemma {:induction false} ValueAtWithoutOverflow(kind: Kind, i: nat)
    requires kind.Ordered?
    requires I32_MIN <= FirstValue(kind).value + i * Increment(kind) <= I32_MAX
    ensures ValueAt(kind, i) == Some(FirstValue(kind).value + i * Increment(kind))
  {
    if i > 0 {
      var inc := Increment(kind);
      var first := FirstValue(kind).value;
      if inc == 1 {
        assert first + (i - 1) * inc == first + i - 1;
      } else {
        assert first + (i - 1) * inc == first - i + 1;
      }
      ValueAtWithoutOverflow(kind, i - 1);
    }
  }

  /** The label of the `i`th item. */
  function LabelAt(kind: Kind, i: nat, roman: (nat, bool) -> string): Option<string>
  {
    ItemLabel(ValueAt(kind, i), kind, roman)
  }

  /** `ItemLabelIterator`. */
  class ItemLabelIterator {
    const kind: Kind
    var value: Option<I32>
    const increment: I32
    var remaining: nat

    /** `ItemLabelIterator::new`: `count` items from the first value. */
    constructor(kind: Kind, count: nat)
      ensures this.kind == kind && value == FirstValue(kind) && increment == Increment(kind)
      ensures remaining == count
    {
      this.kind := kind;
      value := FirstValue(kind);
      increment := Increment(kind);
      remaining := count;
    }

    /** `Iterator::next`: nothing once the count is used up; otherwise the
        current value's label, and the value moves one step with
        wrap-around. */
    method Next(roman: (nat, bool) -> string) returns (item: Option<Option<string>>)
      requires kind.Ordered? <==> value.Some?
      modifies this
      ensures old(remaining) == 0 ==> item.None? && value == old(value) && remaining == 0
      ensures old(remaining) > 0 ==>
        && item == Some(ItemLabel(old(value), kind, roman))
        && remaining == old(remaining) - 1
        && value == (if old(value).Some? then Some(WrappingAdd(old(value).value, increment)) else None)
    {
      if remaining == 0 {
        item := None;
      } else {
        remaining := remaining - 1;
        var indicator := ItemLabel(value, kind, roman);
        value := if value.Some? then Some(WrappingAdd(value.value, increment)) else None;
        item := Some(indicator);
      }
    }
  }

  /** Draining a fresh `ItemLabelIterator` yields exactly `count` labels, the
      `i`th being the label of the `i`th value. */
  method ItemLabels(kind: Kind, count: nat, roman: (nat, bool) -> string) returns (labels: seq<Option<string>>)
    ensures |labels| == count
    ensures forall i :: 0 <= i < count ==> labels[i] == LabelAt(kind, i, roman)
  {
    var it := new ItemLabelIterator(kind, count);
    labels := [];
    var item := it.Next(roman);
    while item.Some?
      invariant it.kind == kind && it.increment == Increment(kind)
      invariant item.Some? ==> |labels| < count && item.value == LabelAt(kind, |labels|, roman)
      invariant item.Some? ==> it.value == ValueAt(kind, |labels| + 1) && |labels| + 1 + it.remaining == count
      invariant item.None? ==> |labels| == count
      invariant forall i :: 0 <= i < |labels| ==> labels[i] == LabelAt(kind, i, roman)
      decreases it.remaining, item.Some?
    {
      labels := labels + [item.value];
      item := it.Next(roman);
    }
  }

  /** A widget registration, by its id. */
  type WidgetId = nat

  /** `Builder`: the kind and the children registered so far. */
  datatype Builder = Builder(kind: Kind, children: seq<WidgetId>)

  /** `ContentBuilder::new`: a bulleted list without children. */
  function NewBuilder(): (b: Builder)
    ensures b.kind == DefaultKind() && b.children == []
  {
    Builder(DefaultKind(), [])
  }

  /** `Builder::bulleted`. */
  function Bulleted(b: Builder): (r: Builder)
    ensures r.kind == Unordered(Bullet) && r.children == b.children
  {
    b.(kind := Unordered(Bullet))
  }

  /** `Builder::unadorned`. */
  function Unadorned(b: Builder): (r: Builder)
    ensures IsUnadorned(r.kind) && r.children == b.children
  {
    b.(kind := Unordered(NoMarker))
  }

  /** `Builder::ordered`: numbered from 1 upwards in the given style. */
  function OrderedBy(b: Builder, kind: OrderedListKind): (r: Builder)
    ensures r.kind == Ordered(None, kind, false) && r.children == b.children
  {
    b.(kind := Ordered(None, kind, false))
  }

  /** `Builder::reversed`, which panics unless the list is ordered: the
      numbering counts down, and the start and style stay. */
  function Reversed(b: Builder): (r: Builder)
    requires b.kind.Ordered?
    ensures r.kind.Ordered? && r.kind.reversed
    ensures r.kind.start == b.kind.start && r.kind.ordered == b.kind.ordered && r.children == b.children
  {
    b.(kind := b.kind.(reversed := true))
  }

  /** `Builder::start_at`, which panics unless the list is ordered: the
      numbering starts at the value, and the direction and style stay. */
  function StartAt(b: Builder, start: I32): (r: Builder)
    requires b.kind.Ordered?
    ensures r.kind.Ordered? && r.kind.start == Some(start)
    ensures r.kind.reversed == b.kind.reversed && r.kind.ordered == b.kind.ordered && r.children == b.children
  {
    b.(kind := b.kind.(start := Some(start)))
  }

  /** `Builder::with_registration`: one more child, at the end. */
  function WithRegistration(b: Builder, id: WidgetId): (r: Builder)
    ensures r.kind == b.kind && r.children == b.children + [id]
  {
    b.(children := b.children + [id])
  }

  /** The finished list: its children, its kind and whether the default
      padding style was attached. */
  datatype FinishedList = FinishedList(children: seq<WidgetId>, kind: Kind, padded: bool)

  /** `Builder::finish`: an unadorned list gets the default padding. */
  function Finish(b: Builder): (r: FinishedList)
    ensures r.children == b.children && r.kind == b.kind
    ensures r.padded <==> IsUnadorned(b.kind)
  {
    FinishedList(b.children, b.kind, IsUnadorned(b.kind))
  }

  /** A reversed list started at `s` numbers its items `s`, `s - 1`, ...,
      and one started without a value numbers them 1, 2, ..., as long as the
      numbers stay within `i32`. */
  lemma OrderedNumbering(style: OrderedListKind, s: I32, i: nat)
    ensures s - i >= I32_MIN ==> ValueAt(Finish(StartAt(Reversed(OrderedBy(NewBuilder(), style)), s)).kind, i) == Some(s - i)
    ensures 1 + i <= I32_MAX ==> ValueAt(Finish(OrderedBy(NewBuilder(), style)).kind, i) == Some(1 + i)
  {
    if s - i >= I32_MIN {
      ValueAtWithoutOverflow(Ordered(Some(s), style, true), i);
    }
    if 1 + i <= I32_MAX {
      ValueAtWithoutOverflow(Ordered(None, style, false), i);
    }
  }

  /** Counting down past `i32::MIN` wraps round to `i32::MAX`. */
  lemma CountdownWraps(style: OrderedListKind)
    ensures ValueAt(Ordered(Some(I32_MIN), style, true), 1) == Some(I32_MAX)
  {
  }

  /** The commands a list sends its frontend. */
  datatype ListCommand = ChildRemoved(removed: WidgetId) | ChildAdded(added: WidgetId)

  /** `List`: its children, and the commands sent through its context. */
  class List {
    var children: seq<WidgetId>
    const kind: Kind
    var sent: seq<ListCommand>

    constructor(f: FinishedList)
      ensures children == f.children && kind == f.kind && sent == []
    {
      children := f.children;
      kind := f.kind;
      sent := [];
    }

    /** `List::remove`, which panics past the end: the child at `index` is
        taken out and returned, and its removal is sent. */
    method Remove(index: nat) returns (removed: WidgetId)
      requires index < |children|
      modifies this
      ensures removed == old(children)[index]
      ensures children == old(children)[..index] + old(children)[index + 1..]
      ensures sent == old(sent) + [ChildRemoved(removed)]
    {
      removed := children[index];
      children := children[..index] + children[index + 1..];
      sent := sent + [ChildRemoved(removed)];
    }

    /** `List::push_registration`: the child goes at the end, and its
        addition is sent. */
    method PushRegistration(id: WidgetId)
      modifies this
      ensures children == old(children) + [id]
      ensures sent == old(sent) + [ChildAdded(id)]
    {
      children := children + [id];
      sent := sent + [ChildAdded(id)];
    }
  }
}
