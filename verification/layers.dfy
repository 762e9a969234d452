/** Widgets stacked in the Z direction (src/widgets/layers.rs): the
    clockwise search for a side to show an overlay on, the clamping of an
    overlay's origin into the available space, the overlay stack with its
    tail of overlays not yet laid out, and the modal stack driven through
    handles. Overlay and modal entries carry the ids their `OrderedLots`
    hand out, taken from a counter. */
module CushyLayers {
  import opened Common

  /** A relative direction. */
  datatype Direction = Up | Right | Down | Left

  /** `Direction::next_clockwise`. */
  function NextClockwise(d: Direction): (r: Direction)
    ensures r != d
  {
    match d
    case Up => Right
    case Right => Down
    case Down => Left
    case Left => Up
  }

  /** `d` turned clockwise `n` times. */
  function Turned(d: Direction, n: nat): Direction
  {
    if n == 0 then d else NextClockwise(Turned(d, n - 1))
  }

  /** Turning clockwise visits the four directions, each once, and comes
      back to the start after four turns. */
  lemma ClockwiseCycle(d: Direction)
    ensures Turned(d, 4) == d
    ensures {Turned(d, 0), Turned(d, 1), Turned(d, 2), Turned(d, 3)} == {Up, Right, Down, Left}
    ensures Turned(d, 1) != d && Turned(d, 2) != d && Turned(d, 3) != d
  {
  }

  /** Turning is periodic with period four. */
  lemma {:induction false} TurnedPeriodic(d: Direction, n: nat)
    ensures Turned(d, n + 4) == Turned(d, n)
  {
    if n == 0 {
      ClockwiseCycle(d);
    } else {
      TurnedPeriodic(d, n - 1);
    }
  }

  /** Where an overlay is shown: on a side of the widget it is relative
      to, or at a window coordinate. */
  datatype Position = Relative(direction: Direction) | At(x: int, y: int)

  /** `Position::next_clockwise`: a side turns clockwise, a window
      coordinate has no next. */
  function PositionNextClockwise(p: Position): (r: Option<Position>)
    ensures r.None? <==> p.At?
    ensures r.Some? ==> r.value.Relative? && r.value != p
  {
    match p
    case Relative(d) => Some(Relative(NextClockwise(d)))
    case At(_, _) => None
  }

  /** One axis of an overlay's origin: the proposed origin raised to zero,
      then moved back by as much as the overlay would stick out past the
      available space. */
  function ClampAxis(origin: int, size: int, available: int): (r: int)
    ensures r + size <= available
    ensures size <= available ==> r >= 0
    ensures r == Min(Max(origin, 0), available - size)
  {
    var raised := Max(origin, 0);
    if raised + size > available then raised - (raised + size - available) else raised
  }

  /** A step of the side search of `layout_overlay_relative` as written,
      taken when the layout on the side `current` overlaps: the next side
      to try, or `None` to stop there. */
  function SideStepAsWritten(positioning: Position, current: Position): Option<Position>
  {
    match PositionNextClockwise(current)
    case None => None
    case Some(next) => if current == positioning then None else Some(next)
  }

  /** As written, the search stops on its first overlap: it compares the
      side it is on, not the next one, with the side it started from, so
      it never turns away from the requested side. */
  lemma SideSearchAsWrittenNeverTurns(positioning: Position)
    ensures SideStepAsWritten(positioning, positioning) == None
  {
  }

  /** The side search of `layout_overlay_relative`, corrected to stop once
      the next side would be the one it started from: from the requested
      side it turns clockwise past every side whose layout overlaps
      (`blocked`), trying each side at most once. A window coordinate is
      never searched. */
  method ChooseSide(positioning: Position, blocked: Direction -> bool) returns (chosen: Position, turns: nat)
    ensures turns <= 3
    ensures positioning.At? ==> chosen == positioning && turns == 0
    ensures positioning.Relative? ==> chosen == Relative(Turned(positioning.direction, turns))
    ensures positioning.Relative? ==> forall j :: 0 <= j < turns ==> blocked(Turned(positioning.direction, j))
    ensures positioning.Relative? && blocked(chosen.direction) ==> turns == 3
  {
    chosen, turns := positioning, 0;
    if positioning.At? {
      return;
    }
    var start := positioning.direction;
    ClockwiseCycle(start);
    while blocked(chosen.direction) && NextClockwise(chosen.direction) != start
      invariant turns <= 3 && chosen == Relative(Turned(start, turns))
      invariant forall j :: 0 <= j < turns ==> blocked(Turned(start, j))
      decreases 3 - turns
    {
      assert NextClockwise(chosen.direction) == Turned(start, turns + 1);
      chosen := Relative(NextClockwise(chosen.direction));
      turns := turns + 1;
    }
    assert NextClockwise(chosen.direction) == Turned(start, turns + 1);
  }

  /** An overlay asked for on the right of a widget whose right side is
      taken goes below it, the next side clockwise, where the search as
      written leaves it on the right. */
  method SideSearchExample() returns (chosen: Position)
    ensures chosen == Relative(Down)
    ensures SideStepAsWritten(Relative(Right), Relative(Right)) == None
  {
    var turns;
    chosen, turns := ChooseSide(Relative(Right), d => d == Right);
    assert Turned(Right, 1) == Down;
  }

  /** An integer rectangle. */
  datatype Rect = Rect(x: int, y: int, width: int, height: int)

  /** `Rect::contains`: the point lies in the half-open rectangle. */
  predicate Contains(r: Rect, px: int, py: int)
  {
    r.x <= px < r.x + r.width && r.y <= py < r.y + r.height
  }

  /** An overlay on the stack (`OverlayLayout`), with the id its slot was
      given and the id of the widget it shows. */
  datatype Overlay = Overlay(
    id: nat,
    widget: nat,
    relativeTo: Option<nat>,
    positioning: Position,
    requiresHover: bool,
    layout: Option<Rect>)

  /** An overlay that hides when unhovered and whose last layout, if it
      has one, holds the point keeps the hover. */
  predicate HoverHit(o: Overlay, px: int, py: int)
  {
    o.requiresHover && (o.layout.None? || Contains(o.layout.value, px, py))
  }

  /** `test_point` from index `i` on: one past the first overlay that keeps
      the hover, else 0 when the original content is checked, there are
      overlays and the point is outside the first overlay's widget, else
      `None`. */
  function HoverTargetFrom(s: seq<Overlay>, i: nat, px: int, py: int, checkOriginal: bool, outsideRoot: bool): (r: Option<nat>)
    requires i <= |s|
    ensures r.Some? ==> r.value <= |s|
    decreases |s| - i
  {
    if i == |s| then
      (if checkOriginal && s != [] && outsideRoot then Some(0) else None)
    else if HoverHit(s[i], px, py) then Some(i + 1)
    else HoverTargetFrom(s, i + 1, px, py, checkOriginal, outsideRoot)
  }

  /** The answer of `test_point`. */
  function HoverTarget(s: seq<Overlay>, px: int, py: int, checkOriginal: bool, outsideRoot: bool): (r: Option<nat>)
    ensures r.Some? ==> r.value <= |s|
  {
    HoverTargetFrom(s, 0, px, py, checkOriginal, outsideRoot)
  }

  /** A positive answer is one past the first overlay that keeps the
      hover; zero or none means no overlay keeps it, and zero is given
      exactly when the original content is checked, there are overlays and
      the point is outside the first overlay's widget. */
  lemma {:induction false} HoverTargetFromMeaning(s: seq<Overlay>, i: nat, px: int, py: int, checkOriginal: bool, outsideRoot: bool)
    requires i <= |s|
    ensures var r := HoverTargetFrom(s, i, px, py, checkOriginal, outsideRoot);
      && (r.Some? && r.value > 0 ==>
            (i < r.value <= |s| && HoverHit(s[r.value - 1], px, py)
             && forall j :: i <= j < r.value - 1 ==> !HoverHit(s[j], px, py)))
      && (r.None? || r.value == 0 ==> forall j :: i <= j < |s| ==> !HoverHit(s[j], px, py))
      && (r == Some(0) <==> (forall j :: i <= j < |s| ==> !HoverHit(s[j], px, py)) && checkOriginal && s != [] && outsideRoot)
    decreases |s| - i
  {
    if i < |s| && !HoverHit(s[i], px, py) {
      HoverTargetFromMeaning(s, i + 1, px, py, checkOriginal, outsideRoot);
    }
  }

  /** The index of the entry with slot id `id`, searching from `i`. */
  function IndexOfIdFrom(s: seq<Overlay>, id: nat, i: nat): (r: Option<nat>)
    requires i <= |s|
    ensures r.Some? ==> r.value < |s|
    decreases |s| - i
  {
    if i == |s| then None
    else if s[i].id == id then Some(i)
    else IndexOfIdFrom(s, id, i + 1)
  }

  /** `OrderedLots::index_of_id`: the first index holding slot `id`. */
  function IndexOfId(s: seq<Overlay>, id: nat): (r: Option<nat>)
    ensures r.Some? ==> r.value < |s|
  {
    IndexOfIdFrom(s, id, 0)
  }

  /** The index found holds the id and none before it does; none found
      means no entry holds it. */
  lemma {:induction false} IndexOfIdFromMeaning(s: seq<Overlay>, id: nat, i: nat)
    requires i <= |s|
    ensures var r := IndexOfIdFrom(s, id, i);
      && (r.Some? ==> (i <= r.value < |s| && s[r.value].id == id
                       && forall j :: i <= j < r.value ==> s[j].id != id))
      && (r.None? ==> forall j :: i <= j < |s| ==> s[j].id != id)
    decreases |s| - i
  {
    if i < |s| && s[i].id != id {
      IndexOfIdFromMeaning(s, id, i + 1);
    }
  }

  /** The overlays left when the handle of the overlay at `index` is
      dropped: every overlay already laid out from `index` on goes, and the
      `pending` overlays not yet laid out stay. */
  function DismissedFrom(s: seq<Overlay>, pending: nat, index: Option<nat>): seq<Overlay>
    requires pending <= |s|
  {
    if index.Some? && index.value < |s| - pending then s[..index.value] + s[|s| - pending..]
    else s
  }

  /** The index of the overlay the new overlay at `newIndex` is shown
      relative to, plus one, searching the overlays below `k` from the
      top; zero when there is none. */
  function AnchorBelow(s: seq<Overlay>, rel: nat, k: nat, inside: (nat, nat) -> bool): (d: nat)
    requires k <= |s|
    ensures d <= k
  {
    if k == 0 then 0
    else if inside(rel, s[k - 1].widget) then k
    else AnchorBelow(s, rel, k - 1, inside)
  }

  /** The anchor found is the topmost overlay below `k` that holds the
      widget the new overlay is relative to. */
  lemma {:induction false} AnchorBelowMeaning(s: seq<Overlay>, rel: nat, k: nat, inside: (nat, nat) -> bool)
    requires k <= |s|
    ensures var d := AnchorBelow(s, rel, k, inside);
      && (d > 0 ==> inside(rel, s[d - 1].widget))
      && forall j :: d <= j < k ==> !inside(rel, s[j].widget)
  {
    if k > 0 && !inside(rel, s[k - 1].widget) {
      AnchorBelowMeaning(s, rel, k - 1, inside);
    }
  }

  /** Where `process_new_overlays` starts dismissing for the new overlay
      at `newIndex`: just above its anchor, or at the bottom when it is
      not relative to a widget inside another overlay. */
  function DismissFrom(s: seq<Overlay>, newIndex: nat, inside: (nat, nat) -> bool): (d: nat)
    requires newIndex < |s|
    ensures d <= newIndex
  {
    match s[newIndex].relativeTo
    case None => 0
    case Some(rel) => AnchorBelow(s, rel, newIndex, inside)
  }

  /** One pass of `process_new_overlays`: the oldest of the `pending` new
      overlays is laid out, and the overlays between its anchor and it are
      dismissed. */
  function ProcessStep(s: seq<Overlay>, pending: nat, inside: (nat, nat) -> bool): (r: seq<Overlay>)
    requires 0 < pending <= |s|
    ensures pending - 1 < |r| <= |s|
  {
    var newIndex := |s| - pending;
    s[..DismissFrom(s, newIndex, inside)] + s[newIndex..]
  }

  /** All passes of `process_new_overlays`. */
  function Processed(s: seq<Overlay>, pending: nat, inside: (nat, nat) -> bool): seq<Overlay>
    requires pending <= |s|
    decreases pending
  {
    if pending == 0 then s else Processed(ProcessStep(s, pending, inside), pending - 1, inside)
  }

  /** A pass keeps the overlays below the dismissed ones and puts the new
      overlay right above its anchor, which holds the widget it is
      relative to; no overlay in between did. */
  lemma ProcessStepPlacesAboveAnchor(s: seq<Overlay>, pending: nat, inside: (nat, nat) -> bool)
    requires 0 < pending <= |s|
    ensures var newIndex := |s| - pending;
      var d := DismissFrom(s, newIndex, inside);
      var r := ProcessStep(s, pending, inside);
      && r[..d] == s[..d]
      && r[d] == s[newIndex]
      && r[d + 1..] == s[newIndex + 1..]
      && (d > 0 ==> s[newIndex].relativeTo.Some? && inside(s[newIndex].relativeTo.value, r[d - 1].widget))
  {
    var newIndex := |s| - pending;
    var d := DismissFrom(s, newIndex, inside);
    if s[newIndex].relativeTo.Some? {
      AnchorBelowMeaning(s, s[newIndex].relativeTo.value, newIndex, inside);
    }
    var r := ProcessStep(s, pending, inside);
    assert r == s[..d] + s[newIndex..];
    assert r[..d] == s[..d];
    assert r[d] == s[newIndex];
    assert r[d + 1..] == s[newIndex + 1..];
  }

  /** Processing never dismisses the newest overlay: it stays on top. */
  lemma {:induction false} ProcessedKeepsNewest(s: seq<Overlay>, pending: nat, inside: (nat, nat) -> bool)
    requires 0 < pending <= |s|
    ensures var r := Processed(s, pending, inside); r != [] && r[|r| - 1] == s[|s| - 1]
    decreases pending
  {
    var t := ProcessStep(s, pending, inside);
    assert t[|t| - 1] == s[|s| - 1];
    if pending > 1 {
      ProcessedKeepsNewest(t, pending - 1, inside);
    }
  }

  /** Every overlay's slot id is below `bound`. */
  predicate IdsBelow(s: seq<Overlay>, bound: nat)
  {
    forall i :: 0 <= i < |s| ==> s[i].id < bound
  }

  /** Cutting a piece out of the stack keeps the ids below the bound. */
  lemma IdsBelowCut(s: seq<Overlay>, i: nat, j: nat, bound: nat)
    requires IdsBelow(s, bound) && i <= j <= |s|
    ensures IdsBelow(s[..i] + s[j..], bound)
  {
    var r := s[..i] + s[j..];
    forall k | 0 <= k < |r|
      ensures r[k].id < bound
    {
      if k < i {
        assert r[k] == s[k];
      } else {
        assert r[k] == s[k - i + j];
      }
    }
  }

  /** The state of an overlay layer (`OverlayState`): the stack of
      overlays, bottom first, whose last `newOverlays` entries are not yet
      laid out, and the index the hover was last found at. */
  class OverlayState {
    var overlays: seq<Overlay>
    var newOverlays: nat
    var hovering: Option<nat>
    /** The next slot id to hand out. */
    var nextId: nat

    /** The new overlays are among the overlays, and slot ids were handed
        out by the counter. */
    ghost predicate Valid()
      reads this
    {
      newOverlays <= |overlays| && IdsBelow(overlays, nextId)
    }

    /** An empty layer. */
    constructor()
      ensures Valid()
      ensures overlays == [] && newOverlays == 0 && hovering == None && nextId == 0
    {
      overlays, newOverlays, hovering, nextId := [], 0, None, 0;
    }

    /** `OverlayBuilder::show`: the overlay is pushed on top with a fresh
        slot id and counted as new; it is not laid out yet. */
    method Show(widget: nat, relativeTo: Option<nat>, positioning: Position, requiresHover: bool) returns (id: nat)
      requires Valid()
      modifies this`overlays, this`newOverlays, this`nextId
      ensures Valid()
      ensures forall i :: 0 <= i < |old(overlays)| ==> old(overlays)[i].id != id
      ensures overlays == old(overlays) + [Overlay(id, widget, relativeTo, positioning, requiresHover, None)]
      ensures newOverlays == old(newOverlays) + 1
    {
      id := nextId;
      overlays := overlays + [Overlay(id, widget, relativeTo, positioning, requiresHover, None)];
      newOverlays := newOverlays + 1;
      nextId := nextId + 1;
    }

    /** `OverlayLayer::dismiss_all`: every overlay goes, none is new and
        nothing is hovered. */
    method DismissAll()
      modifies this`overlays, this`newOverlays, this`hovering
      ensures Valid()
      ensures overlays == [] && newOverlays == 0 && hovering == None
    {
      hovering := None;
      overlays := [];
      newOverlays := 0;
    }

    /** `remove_children_after`: overlays are popped off the top until at
        most `start` remain, each pop counting one new overlay less, down
        to zero. */
    method RemoveChildrenAfter(start: nat)
      requires Valid() && start <= |overlays|
      modifies this`overlays, this`newOverlays
      ensures Valid()
      ensures overlays == old(overlays)[..start]
      ensures newOverlays == SatSub(old(newOverlays), |old(overlays)| - start)
    {
      ghost var before, pending := overlays, newOverlays;
      while start < |overlays| && overlays != []
        invariant start <= |overlays| <= |before| && overlays == before[..|overlays|]
        invariant newOverlays == SatSub(pending, |before| - |overlays|) && newOverlays <= |overlays|
        decreases |overlays|
      {
        overlays := overlays[..|overlays| - 1];
        newOverlays := SatSub(newOverlays, 1);
      }
      IdsBelowCut(before, |overlays|, |before|, nextId);
      assert before[..|overlays|] + before[|before|..] == overlays;
    }

    /** `test_point`: the first overlay from the bottom that keeps the
        hover, counted from one, else 0 when the original content is
        checked and the point is outside the first overlay's widget
        (`outsideRoot`), else none. */
    method TestPoint(px: int, py: int, checkOriginal: bool, outsideRoot: bool) returns (r: Option<nat>)
      ensures r == HoverTarget(overlays, px, py, checkOriginal, outsideRoot)
    {
      var index := 0;
      while index < |overlays|
        invariant index <= |overlays|
        invariant HoverTarget(overlays, px, py, checkOriginal, outsideRoot)
          == HoverTargetFrom(overlays, index, px, py, checkOriginal, outsideRoot)
      {
        var overlay := overlays[index];
        if overlay.requiresHover && !(overlay.layout.Some? && !Contains(overlay.layout.value, px, py)) {
          return Some(index + 1);
        }
        index := index + 1;
      }
      if checkOriginal && overlays != [] && outsideRoot {
        r := Some(0);
      } else {
        r := None;
      }
    }

    /** `OverlayLayer::hover`: the hover is found with `test_point`; when
        it moved down the stack, the overlays above it are removed. */
    method Hover(px: int, py: int, outsideRoot: bool)
      requires Valid()
      modifies this`overlays, this`newOverlays, this`hovering
      ensures Valid()
      ensures var hit := HoverTarget(old(overlays), px, py, true, outsideRoot);
        && hovering == hit
        && (if hit.Some? && old(hovering).Some? && old(hovering).value > hit.value
            then overlays == old(overlays)[..hit.value]
            else overlays == old(overlays) && newOverlays == old(newOverlays))
    {
      var hit := TestPoint(px, py, true, outsideRoot);
      if hit.Some? {
        var shouldRemove := hovering.Some? && hovering.value > hit.value;
        hovering := hit;
        if shouldRemove {
          RemoveChildrenAfter(hit.value);
        }
      } else {
        hovering := None;
      }
    }

    /** `OverlayLayer::unhover`: nothing is hovered, and the first overlay
        that hides when unhovered goes with every overlay above it. */
    method Unhover()
      requires Valid()
      modifies this`overlays, this`newOverlays, this`hovering
      ensures Valid() && hovering == None
      ensures (forall i :: 0 <= i < |old(overlays)| ==> !old(overlays)[i].requiresHover)
        ==> overlays == old(overlays) && newOverlays == old(newOverlays)
      ensures forall i :: (0 <= i < |old(overlays)| && old(overlays)[i].requiresHover
                           && (forall j :: 0 <= j < i ==> !old(overlays)[j].requiresHover))
                          ==> overlays == old(overlays)[..i]
    {
      hovering := None;
      var index := 0;
      while index < |overlays| && !overlays[index].requiresHover
        invariant index <= |overlays|
        invariant forall j :: 0 <= j < index ==> !overlays[j].requiresHover
      {
        index := index + 1;
      }
      if index < |overlays| {
        RemoveChildrenAfter(index);
      }
    }

    /** Dropping an `OverlayHandle` that dismisses on drop: every overlay
        already laid out from the handle's overlay up is removed, while the
        new ones stay; an overlay no longer on the stack, or a forgotten
        handle, removes nothing. */
    method DropHandle(id: nat, dismissOnDrop: bool)
      requires Valid()
      modifies this`overlays
      ensures Valid()
      ensures overlays == if dismissOnDrop then DismissedFrom(old(overlays), newOverlays, IndexOfId(old(overlays), id)) else old(overlays)
    {
      if !dismissOnDrop {
        return;
      }
      var found := IndexOfId(overlays, id);
      if found.None? {
        return;
      }
      var index := found.value;
      ghost var before := overlays;
      ghost var removed := 0;
      while |overlays| - newOverlays > index
        invariant newOverlays <= |overlays| && index + removed <= |before|
        invariant |overlays| == |before| - removed
        invariant overlays == before[..index] + before[index + removed..]
        invariant removed == 0 || |overlays| - newOverlays >= index
        decreases |overlays|
      {
        assert overlays[..index] == before[..index];
        assert overlays[index + 1..] == before[index + removed + 1..];
        overlays := overlays[..index] + overlays[index + 1..];
        removed := removed + 1;
      }
      IdsBelowCut(before, index, index + removed, nextId);
      if removed > 0 {
        assert index + removed == |before| - newOverlays;
      }
    }

    /** The `for` loop of `process_new_overlays` that looks for the anchor
        of the new overlay at `newIndex`, from the top down. */
    method FindDismissFrom(newIndex: nat, inside: (nat, nat) -> bool) returns (dismissFrom: nat)
      requires newIndex < |overlays|
      ensures dismissFrom == DismissFrom(overlays, newIndex, inside)
    {
      dismissFrom := 0;
      var relativeTo := overlays[newIndex].relativeTo;
      if relativeTo.None? {
        return;
      }
      var existing := newIndex;
      while existing > 0
        invariant existing <= newIndex
        invariant AnchorBelow(overlays, relativeTo.value, newIndex, inside) == AnchorBelow(overlays, relativeTo.value, existing, inside)
      {
        existing := existing - 1;
        if inside(relativeTo.value, overlays[existing].widget) {
          dismissFrom := existing + 1;
          return;
        }
      }
    }

    /** One pass of `process_new_overlays`: the oldest new overlay is laid
        out and the overlays between its anchor and it are removed, from
        the top down. */
    method ProcessOne(inside: (nat, nat) -> bool)
      requires Valid() && newOverlays > 0
      modifies this`overlays, this`newOverlays
      ensures Valid()
      ensures overlays == ProcessStep(old(overlays), old(newOverlays), inside)
      ensures newOverlays == old(newOverlays) - 1
    {
      var newIndex := |overlays| - newOverlays;
      newOverlays := newOverlays - 1;
      var dismissFrom := FindDismissFrom(newIndex, inside);
      ghost var before := overlays;
      var index := newIndex;
      while index > dismissFrom
        invariant dismissFrom <= index <= newIndex
        invariant newOverlays == old(newOverlays) - 1 && newIndex == |before| - old(newOverlays)
        invariant overlays == before[..index] + before[newIndex..]
      {
        index := index - 1;
        assert overlays[..index] == before[..index];
        assert overlays[index + 1..] == before[newIndex..];
        overlays := overlays[..index] + overlays[index + 1..];
      }
      IdsBelowCut(before, dismissFrom, newIndex, nextId);
    }

    /** `process_new_overlays`: every new overlay is laid out in turn, and
        none is left new. */
    method ProcessNewOverlays(inside: (nat, nat) -> bool)
      requires Valid()
      modifies this`overlays, this`newOverlays
      ensures Valid() && newOverlays == 0
      ensures overlays == Processed(old(overlays), old(newOverlays), inside)
    {
      ghost var target := Processed(overlays, newOverlays, inside);
      while newOverlays > 0
        invariant Valid()
        invariant Processed(overlays, newOverlays, inside) == target
        decreases newOverlays
      {
        ProcessOne(inside);
      }
      assert Processed(overlays, 0, inside) == overlays;
    }
  }

  /** The modal stack of a `Modal` layer: the slot ids of the presented
      widgets, bottom first. */
  class ModalStack {
    var entries: seq<nat>
    var nextId: nat

    /** Slot ids were handed out by the counter. */
    ghost predicate Valid()
      reads this
    {
      forall i :: 0 <= i < |entries| ==> entries[i] < nextId
    }

    /** `Modal::new`: nothing is presented. */
    constructor()
      ensures Valid() && entries == [] && nextId == 0
    {
      entries, nextId := [], 0;
    }

    /** `Modal::present`: the widget is presented on top with a fresh id. */
    method Present() returns (id: nat)
      requires Valid()
      modifies this
      ensures Valid() && id !in old(entries)
      ensures entries == old(entries) + [id]
      ensures id == old(nextId) && nextId == old(nextId) + 1
    {
      id := nextId;
      entries := entries + [id];
      nextId := nextId + 1;
    }

    /** `Modal::dismiss`: every presented widget goes. */
    method Dismiss()
      modifies this`entries
      ensures Valid() && entries == []
    {
      entries := [];
    }

    /** `Modal::visible`: whether anything is presented. */
    function Visible(): (r: bool)
      reads this
      ensures r <==> |entries| > 0
    {
      entries != []
    }
  }

  /** The first index of `id` in the modal stack. */
  function IndexOf(s: seq<nat>, id: nat): (r: Option<nat>)
    ensures r.Some? ==> r.value < |s| && s[r.value] == id && id !in s[..r.value]
    ensures r.None? ==> id !in s
  {
    if s == [] then None
    else if s[0] == id then Some(0)
    else match IndexOf(s[1..], id)
      case None => None
      case Some(i) =>
        assert s[..i + 1] == [s[0]] + s[1..][..i];
        Some(i + 1)
  }

  /** A handle to what a `Modal` layer presents (`ModalHandle`): the layer,
      the handle it was made above, if any, and the id of what it
      presents. Clones of a handle share it and are this one object. */
  class ModalHandle {
    const layer: ModalStack
    const above: Option<ModalHandle>
    var id: Option<nat>

    /** `Modal::new_handle` (no `above`) and `ModalTarget::new_handle` on a
        handle (above that handle): nothing presented yet. */
    constructor(layer: ModalStack, above: Option<ModalHandle>)
      ensures this.layer == layer && this.above == above && id == None
    {
      this.layer, this.above, id := layer, above, None;
    }

    /** `ModalHandle::present`: above a handle whose widget is still
        presented, everything over that widget is dismissed first; above a
        handle whose widget is gone, nothing is presented and this handle
        holds nothing; otherwise the stack is cleared first. */
    method Present()
      requires layer.Valid()
      requires above.Some? ==> above.value != this
      modifies this, layer
      ensures layer.Valid()
      ensures var a := if above.Some? then old(above.value.id) else None;
        var newId := old(layer.nextId);
        && (a.None? ==> layer.entries == [newId] && id == Some(newId))
        && (a.Some? && IndexOf(old(layer.entries), a.value).None? ==>
              layer.entries == old(layer.entries) && id == None)
        && (a.Some? && IndexOf(old(layer.entries), a.value).Some? ==>
              layer.entries == old(layer.entries)[..IndexOf(old(layer.entries), a.value).value + 1] + [newId]
              && id == Some(newId))
    {
      var a := if above.Some? then above.value.id else None;
      if a.Some? {
        var index := IndexOf(layer.entries, a.value);
        if index.Some? {
          layer.entries := layer.entries[..index.value + 1];
        } else {
          id := None;
          return;
        }
      } else {
        layer.entries := [];
      }
      var pushed := layer.Present();
      id := Some(pushed);
    }

    /** `ModalHandle::dismiss`: the handle lets go of its id, and the
        widget it presented goes with everything above it; nothing happens
        when it holds no id or the widget is already gone. */
    method Dismiss()
      requires layer.Valid()
      modifies this`id, layer`entries
      ensures layer.Valid() && id == None
      ensures old(id).None? ==> layer.entries == old(layer.entries)
      ensures old(id).Some? ==>
        layer.entries == match IndexOf(old(layer.entries), old(id).value)
          case None => old(layer.entries)
          case Some(index) => old(layer.entries)[..index]
    {
      var taken := id;
      id := None;
      if taken.None? {
        return;
      }
      var index := IndexOf(layer.entries, taken.value);
      if index.Some? {
        layer.entries := layer.entries[..index.value];
      }
    }

    /** Dropping a handle: the last one holding the id dismisses. */
    method Drop(instances: nat)
      requires layer.Valid()
      modifies this`id, layer`entries
      ensures layer.Valid()
      ensures instances != 1 ==> id == old(id) && layer.entries == old(layer.entries)
      ensures instances == 1 ==> id == None
      ensures instances == 1 && old(id).None? ==> layer.entries == old(layer.entries)
      ensures instances == 1 && old(id).Some? ==>
        layer.entries == match IndexOf(old(layer.entries), old(id).value)
          case None => old(layer.entries)
          case Some(index) => old(layer.entries)[..index]
    {
      if instances == 1 {
        Dismiss();
      }
    }
  }

  /** A dialog above a dialog: the inner one is presented on top of the
      outer one, dismissing the inner one leaves the outer one, and when
      the inner handle presents again and the outer one is dismissed, both
      go. `stacks` records the modal stack after each step. */
  method NestedModals() returns (outerId: nat, innerId: nat, stacks: seq<seq<nat>>)
    ensures outerId != innerId
    ensures stacks == [[outerId], [outerId, innerId], [outerId], []]
  {
    var layer := new ModalStack();
    var outer := new ModalHandle(layer, None);
    outer.Present();
    assert outer.id.Some?;
    outerId := outer.id.value;
    assert layer.entries == [outerId];
    stacks := [layer.entries];
    var inner := new ModalHandle(layer, Some(outer));
    inner.Present();
    innerId := inner.id.value;
    assert layer.entries == [outerId, innerId];
    stacks := stacks + [layer.entries];
    inner.Dismiss();
    assert layer.entries == [outerId];
    stacks := stacks + [layer.entries];
    inner.Present();
    outer.Dismiss();
    assert layer.entries == [];
    stacks := stacks + [layer.entries];
  }
}
