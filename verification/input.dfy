/** The editing core of the `Input` widget (src/widgets/input.rs): a text
    value, a cursor and an optional selection start, edited in place by key
    presses. Each grapheme is modelled as one `char` and each `char` as one
    byte, so byte offsets are indices into the text. Word segmentation is
    modelled by a predicate telling which characters belong to words: a word
    is a maximal run of such characters. */
module CushyInput {
  import opened Common

  datatype Affinity = Before | After

  /** `Cursor`: a byte offset and an affinity. */
  datatype Cursor = Cursor(offset: nat, affinity: Affinity)

  /** The derived `Ord` of `Cursor`: by offset, then `Before` ahead of `After`. */
  predicate CursorLess(a: Cursor, b: Cursor)
  {
    a.offset < b.offset || (a.offset == b.offset && a.affinity == Before && b.affinity == After)
  }

  lemma CursorOrderIsTotal(a: Cursor, b: Cursor, c: Cursor)
    ensures !CursorLess(a, a)
    ensures a != b ==> (CursorLess(a, b) <==> !CursorLess(b, a))
    ensures CursorLess(a, b) && CursorLess(b, c) ==> CursorLess(a, c)
  {
  }

  datatype NavigationMode = Grapheme | Word

  /** `text` with `t[a..b]` replaced by `s`. */
  function Splice(t: seq<char>, a: nat, b: nat, s: seq<char>): (r: seq<char>)
    requires a <= b <= |t|
    ensures |r| == |t| - (b - a) + |s|
    ensures r[..a] == t[..a] && r[a..a + |s|] == s && r[a + |s|..] == t[b..]
  {
    t[..a] + s + t[b..]
  }

  /** Inserting and then removing the same text restores the original. */
  lemma InsertThenRemove(t: seq<char>, a: nat, s: seq<char>)
    requires a <= |t|
    ensures Splice(Splice(t, a, a, s), a, a + |s|, []) == t
  {
    assert t[..a] + t[a..] == t;
  }

  /** Removing a range and inserting it back restores the original. */
  lemma RemoveThenReinsert(t: seq<char>, a: nat, b: nat)
    requires a <= b <= |t|
    ensures Splice(Splice(t, a, b, []), a, a, t[a..b]) == t
  {
    assert t[..a] + t[a..b] + t[b..] == t;
  }

  // ---------------------------------------------------------------------
  // Words

  /** A word starts at `k`: a word character not preceded by one. */
  predicate IsWordStart(t: seq<char>, isWord: char -> bool, k: nat)
  {
    k < |t| && isWord(t[k]) && (k == 0 || !isWord(t[k - 1]))
  }

  /** Start offsets of the words of `t`, in increasing order. */
  function WordStarts(t: seq<char>, isWord: char -> bool): (r: seq<nat>)
    ensures forall i | 0 <= i < |r| :: r[i] < |t|
    ensures forall i, j | 0 <= i < j < |r| :: r[i] < r[j]
    ensures forall k | k in r :: IsWordStart(t, isWord, k)
    ensures forall k: nat | IsWordStart(t, isWord, k) :: k in r
  {
    StartsFrom(t, isWord, 0)
  }

  function StartsFrom(t: seq<char>, isWord: char -> bool, k: nat): (r: seq<nat>)
    requires k <= |t|
    ensures forall i | 0 <= i < |r| :: k <= r[i] < |t|
    ensures forall i, j | 0 <= i < j < |r| :: r[i] < r[j]
    ensures forall m | m in r :: k <= m && IsWordStart(t, isWord, m)
    ensures forall m: nat | k <= m && IsWordStart(t, isWord, m) :: m in r
    decreases |t| - k
  {
    if k == |t| then []
    else
      var rest := StartsFrom(t, isWord, k + 1);
      if IsWordStart(t, isWord, k) then
        assert forall m: nat :: m in [k] + rest <==> m == k || m in rest;
        [k] + rest
      else rest
  }

  /** Length of the run of word characters of `t` starting at `k`. */
  function RunLength(t: seq<char>, isWord: char -> bool, k: nat): (r: nat)
    requires k <= |t|
    ensures k + r <= |t|
    ensures forall m | k <= m < k + r :: isWord(t[m])
    ensures k + r < |t| ==> !isWord(t[k + r])
    decreases |t| - k
  {
    if k == |t| || !isWord(t[k]) then 0 else 1 + RunLength(t, isWord, k + 1)
  }

  /** The first word of `t`, as its index and length. */
  function FirstWord(t: seq<char>, isWord: char -> bool): (r: Option<(nat, nat)>)
    ensures r.Some? ==> r.value.0 + r.value.1 <= |t| && r.value.1 > 0
    ensures r.None? <==> WordStarts(t, isWord) == []
  {
    var starts := WordStarts(t, isWord);
    if starts == [] then None
    else
      assert starts[0] in starts;
      assert isWord(t[starts[0]]);
      Some((starts[0], RunLength(t, isWord, starts[0])))
  }

  /** The word-wise backwards move exactly as written: the start of the first
      word whose successor starts at or after `offset`, or 0 without words. */
  function PreviousWordStartAsWritten(starts: seq<nat>, offset: nat): nat
  {
    if starts == [] then 0
    else if |starts| == 1 || starts[1] >= offset then starts[0]
    else PreviousWordStartAsWritten(starts[1..], offset)
  }

  /** With the cursor inside leading whitespace, the source's backwards word
      move goes forwards: in "  ab" from offset 1 it lands on offset 2. */
  lemma PreviousWordStartAsWrittenMovesForward()
    ensures WordStarts("  ab", NotSpace) == [2]
    ensures PreviousWordStartAsWritten([2], 1) == 2
  {
    var t := "  ab";
    assert StartsFrom(t, NotSpace, 4) == [];
    assert StartsFrom(t, NotSpace, 3) == [];
    assert StartsFrom(t, NotSpace, 2) == [2];
    assert StartsFrom(t, NotSpace, 1) == [2];
  }

  /** Words separated by spaces only. */
  predicate NotSpace(c: char)
  {
    c != ' '
  }

  /** The corrected backwards word move: the last word start before
      `offset`, or 0 when there is none. */
  function PreviousWordStart(starts: seq<nat>, offset: nat): (r: nat)
    requires forall i, j | 0 <= i < j < |starts| :: starts[i] < starts[j]
    ensures r == 0 || (r in starts && r < offset)
    ensures offset > 0 ==> r < offset
    ensures forall k | k in starts && r < k :: k >= offset
  {
    PreviousWordStartFromFacts(starts, 0, 0, offset);
    PreviousWordStartFrom(starts, 0, 0, offset)
  }

  /** The search of `PreviousWordStart` resumed after the first `i` starts,
      all before `offset`, the last of which is `found`. */
  function PreviousWordStartFrom(starts: seq<nat>, i: nat, found: nat, offset: nat): nat
    requires i <= |starts|
    decreases |starts| - i
  {
    if i == |starts| || starts[i] >= offset then found
    else PreviousWordStartFrom(starts, i + 1, starts[i], offset)
  }

  /** The word-left scan of `move_cursor`: walks the word starts while they
      lie before `offset`, keeping the last one seen. */
  method FindPreviousWordStart(starts: seq<nat>, offset: nat) returns (found: nat)
    requires forall i, j | 0 <= i < j < |starts| :: starts[i] < starts[j]
    ensures found == PreviousWordStart(starts, offset)
  {
    found := 0;
    var i := 0;
    while i < |starts| && starts[i] < offset
      invariant 0 <= i <= |starts|
      invariant PreviousWordStartFrom(starts, 0, 0, offset) == PreviousWordStartFrom(starts, i, found, offset)
    {
      found := starts[i];
      i := i + 1;
    }
  }

  lemma {:induction false} PreviousWordStartFromFacts(starts: seq<nat>, i: nat, found: nat, offset: nat)
    requires forall a, b | 0 <= a < b < |starts| :: starts[a] < starts[b]
    requires i <= |starts|
    requires forall j | 0 <= j < i :: starts[j] < offset
    requires found == if i == 0 then 0 else starts[i - 1]
    ensures var r := PreviousWordStartFrom(starts, i, found, offset);
      && (r == 0 || (r in starts && r < offset))
      && (offset > 0 ==> r < offset)
      && (forall k | k in starts && r < k :: k >= offset)
    decreases |starts| - i
  {
    if i < |starts| && starts[i] < offset {
      PreviousWordStartFromFacts(starts, i + 1, starts[i], offset);
    } else {
      forall k | k in starts && found < k ensures k >= offset {
        var j :| 0 <= j < |starts| && starts[j] == k;
      }
    }
  }

  // ---------------------------------------------------------------------
  // The replace_range finding

  /** `replace_range` exactly as written: the start is clipped to one before
      the end of the text. */
  function ReplaceRangeAsWritten(t: seq<char>, start: nat, end: nat, s: seq<char>): seq<char>
    requires start <= end
  {
    var a := Min(start, SatSub(|t|, 1));
    var b := Min(end, |t|);
    Splice(t, a, b, s)
  }

  /** An empty selection at the very end of the text (start `Before`,
      cursor `After` at the same offset) makes typing overwrite the last
      character. */
  lemma ReplaceRangeAsWrittenOverwritesLastChar()
    ensures ReplaceRangeAsWritten("abc", 3, 3, "x") == "abx"
  {
  }

  // ---------------------------------------------------------------------
  // The widget

  /** 500 ms, in nanoseconds. */
  const BLINK: nat := 500_000_000

  /** The position within the two-interval blink period that a blink state
      stands for: visible during the first interval, hidden during the
      second. */
  function BlinkPhase(visible: bool, remaining: nat): nat
    requires remaining <= BLINK
  {
    (if visible then BLINK - remaining else 2 * BLINK - remaining) % (2 * BLINK)
  }

  /** The widget's blink state. */
  class BlinkState {
    var visible: bool
    var remaining: nat

    constructor()
      ensures visible && remaining == BLINK
    {
      visible := true;
      remaining := BLINK;
    }

    /** `BlinkState::update`: the cursor blinks with exact period: the new
        phase is the old one advanced by the elapsed time, and the time to
        the next blink never exceeds the blink interval. */
    method Update(elapsed: nat)
      requires remaining <= BLINK
      modifies this
      ensures remaining <= BLINK
      ensures BlinkPhase(visible, remaining) == (BlinkPhase(old(visible), old(remaining)) + elapsed) % (2 * BLINK)
    {
      var cycles := elapsed / BLINK;
      var rest := elapsed % BLINK;
      ghost var v0, r0 := visible, remaining;
      if cycles % 2 == 1 {
        visible := !visible;
      }
      if remaining >= rest {
        remaining := remaining - rest;
      } else {
        visible := !visible;
        remaining := BLINK - (rest - remaining);
      }
      BlinkAdvance(v0, r0, elapsed, visible, remaining);
    }

    /** `BlinkState::force_on`. */
    method ForceOn()
      modifies this
      ensures visible && remaining == BLINK
    {
      visible := true;
      remaining := BLINK;
    }
  }

  lemma BlinkAdvance(v0: bool, r0: nat, elapsed: nat, v1: bool, r1: nat)
    requires r0 <= BLINK && r1 <= BLINK
    requires var rest := elapsed % BLINK;
      var flipped := if (elapsed / BLINK) % 2 == 1 then !v0 else v0;
      if r0 >= rest then v1 == flipped && r1 == r0 - rest
      else v1 == !flipped && r1 == BLINK - (rest - r0)
    ensures BlinkPhase(v1, r1) == (BlinkPhase(v0, r0) + elapsed) % (2 * BLINK)
  {
    var k := BlinkPeriods(v0, r0, elapsed, v1, r1);
    ModShift(RawPhase(v0, r0), elapsed, 0, elapsed);
    ModAddPeriods(RawPhase(v1, r1), k);
  }

  /** The blink phase before reducing it to one period. */
  function RawPhase(visible: bool, remaining: nat): (r: nat)
    requires remaining <= BLINK
    ensures BlinkPhase(visible, remaining) == r % (2 * BLINK)
  {
    if visible then BLINK - remaining else 2 * BLINK - remaining
  }

  /** The unreduced phase after an update differs from the old phase plus
      the elapsed time by whole periods only. */
  lemma BlinkPeriods(v0: bool, r0: nat, elapsed: nat, v1: bool, r1: nat) returns (k: int)
    requires r0 <= BLINK && r1 <= BLINK
    requires var rest := elapsed % BLINK;
      var flipped := if (elapsed / BLINK) % 2 == 1 then !v0 else v0;
      if r0 >= rest then v1 == flipped && r1 == r0 - rest
      else v1 == !flipped && r1 == BLINK - (rest - r0)
    ensures RawPhase(v1, r1) + k * (2 * BLINK) == RawPhase(v0, r0) + elapsed
  {
    var c, rest := elapsed / BLINK, elapsed % BLINK;
    var m, cp := c / 2, c % 2;
    assert elapsed == m * (2 * BLINK) + cp * BLINK + rest;
    if r0 >= rest {
      k := if v0 then m else m + cp;
    } else {
      k := if v0 then m + cp else m + 1;
    }
  }

  /** Adding whole periods does not change a residue. */
  lemma ModShift(p: nat, e: nat, m: nat, rest: nat)
    requires e == m * (2 * BLINK) + rest
    ensures (p % (2 * BLINK) + e) % (2 * BLINK) == (p + rest) % (2 * BLINK)
  {
    var q := p / (2 * BLINK);
    assert p == q * (2 * BLINK) + p % (2 * BLINK);
    assert p % (2 * BLINK) + e == (p + rest) + (m - q) * (2 * BLINK);
    ModAddPeriods(p + rest, m - q);
  }

  lemma ModAddPeriods(x: nat, k: int)
    requires x + k * (2 * BLINK) >= 0
    ensures (x + k * (2 * BLINK)) % (2 * BLINK) == x % (2 * BLINK)
  {
  }

  /** Whether a non-empty selection exists. */
  predicate HasSelection(start: Option<Cursor>, cursor: Cursor)
  {
    start.Some? && start.value != cursor
  }

  /** The byte range a selection covers, clipped to a text of `len` bytes. */
  function SelectionSpan(start: Cursor, cursor: Cursor, len: nat): (r: (nat, nat))
    ensures r.0 <= r.1 <= len || r.0 > len
    ensures cursor.offset <= len ==> r.0 <= r.1 <= len
  {
    (Min(Min(start.offset, cursor.offset), len), Min(Max(start.offset, cursor.offset), len))
  }

  /** The selection start after `selected_range` found no selection: an
      empty one is kept only while a mouse button is held down. */
  function EmptySelectionAfter(start: Option<Cursor>, mouseButtonsDown: nat): (r: Option<Cursor>)
    ensures r.Some? ==> r == start && mouseButtonsDown > 0
    ensures start.None? ==> r.None?
  {
    if start.Some? && mouseButtonsDown > 0 then start else None
  }

  /** The `Input` widget's editing state: its value, the selection and the
      number of mouse buttons held down. */
  class Input {
    var text: seq<char>
    var cursor: Cursor
    var start: Option<Cursor>
    var mouseButtonsDown: nat

    /** The cursor stays within the text. (The selection start may be left
        beyond it by a deletion while a mouse button is held; every use of it
        clips it to the text.) */
    ghost predicate Valid()
      reads this
    {
      cursor.offset <= |text|
    }

    constructor(initial: seq<char>)
      ensures Valid()
      ensures text == initial && cursor == Cursor(0, Before) && start == None && mouseButtonsDown == 0
    {
      text := initial;
      cursor := Cursor(0, Before);
      start := None;
      mouseButtonsDown := 0;
    }

    /** `select_all`. */
    method SelectAll()
      modifies this
      ensures Valid()
      ensures start == Some(Cursor(0, Before)) && cursor == Cursor(|text|, After)
      ensures text == old(text) && mouseButtonsDown == old(mouseButtonsDown)
    {
      start := Some(Cursor(0, Before));
      cursor := Cursor(|text|, After);
    }

    /** `selected_range`: the lower cursor and, when a non-empty selection
        exists, the upper one. An empty selection is forgotten unless a
        mouse button is held down. */
    method SelectedRange() returns (lower: Cursor, upper: Option<Cursor>)
      requires Valid()
      modifies this
      ensures Valid()
      ensures upper.Some? ==> CursorLess(lower, upper.value)
      ensures old(start).None? ==> lower == cursor && upper == None && start == None
      ensures old(start).Some? && CursorLess(old(start).value, cursor) ==>
        lower == old(start).value && upper == Some(cursor) && start == old(start)
      ensures old(start).Some? && CursorLess(cursor, old(start).value) ==>
        lower == cursor && upper == old(start) && start == old(start)
      ensures old(start) == Some(cursor) ==>
        && lower == cursor && upper == None
        && start == (if mouseButtonsDown == 0 then None else old(start))
      ensures text == old(text) && cursor == old(cursor) && mouseButtonsDown == old(mouseButtonsDown)
    {
      match start {
        case None =>
          lower, upper := cursor, None;
        case Some(s) =>
          if CursorLess(s, cursor) {
            lower, upper := s, Some(cursor);
          } else if s == cursor {
            if mouseButtonsDown == 0 {
              start := None;
            }
            lower, upper := cursor, None;
          } else {
            lower, upper := cursor, Some(s);
          }
      }
    }

    /** `replace_range`, with the start clipped to the text as the end is
        (the source clips it one character short; see the findings). */
    method ReplaceRange(lower: Cursor, upper: Cursor, s: seq<char>)
      requires lower.offset <= upper.offset
      modifies this
      ensures Valid()
      ensures var a := Min(lower.offset, |old(text)|);
        && text == Splice(old(text), a, Min(upper.offset, |old(text)|), s)
        && cursor == old(cursor).(offset := a + |s|)
      ensures start == None && mouseButtonsDown == old(mouseButtonsDown)
    {
      var a := Min(lower.offset, |text|);
      var b := Min(upper.offset, |text|);
      text := text[..a] + s + text[b..];
      cursor := cursor.(offset := a + |s|);
      start := None;
    }

    /** `replace_selection`: replaces the selection, or inserts at the
        cursor, leaving the cursor after the new text. */
    method ReplaceSelection(s: seq<char>)
      requires Valid()
      modifies this
      ensures Valid()
      ensures HasSelection(old(start), old(cursor)) ==>
        var span := SelectionSpan(old(start).value, old(cursor), |old(text)|);
        && text == Splice(old(text), span.0, span.1, s)
        && cursor == old(cursor).(offset := span.0 + |s|)
        && start == None
      ensures !HasSelection(old(start), old(cursor)) ==>
        && text == Splice(old(text), old(cursor).offset, old(cursor).offset, s)
        && cursor == old(cursor).(offset := old(cursor).offset + |s|)
        && start == EmptySelectionAfter(old(start), mouseButtonsDown)
      ensures mouseButtonsDown == old(mouseButtonsDown)
    {
      var lower, upper := SelectedRange();
      if upper.Some? {
        ReplaceRange(lower, upper.value, s);
      } else if lower.offset < |text| {
        text := text[..lower.offset] + s + text[lower.offset..];
        cursor := cursor.(offset := cursor.offset + |s|);
      } else {
        text := text + s;
        cursor := cursor.(offset := cursor.offset + |s|);
      }
    }

    /** `delete` (backspace): removes the selection, or the character before
        the cursor and moves the cursor back over it. */
    method Delete()
      requires Valid()
      modifies this
      ensures Valid()
      ensures HasSelection(old(start), old(cursor)) ==>
        var span := SelectionSpan(old(start).value, old(cursor), |old(text)|);
        && text == Splice(old(text), span.0, span.1, [])
        && cursor == old(cursor).(offset := span.0)
        && start == None
      ensures !HasSelection(old(start), old(cursor)) ==>
        && start == EmptySelectionAfter(old(start), mouseButtonsDown)
        && (old(cursor).offset > 0 ==>
              && text == Splice(old(text), old(cursor).offset - 1, old(cursor).offset, [])
              && cursor == old(cursor).(offset := old(cursor).offset - 1))
        && (old(cursor).offset == 0 ==> text == old(text) && cursor == old(cursor))
      ensures mouseButtonsDown == old(mouseButtonsDown)
    {
      var lower, upper := SelectedRange();
      if upper.Some? {
        ReplaceRange(lower, upper.value, []);
      } else if lower.offset > 0 {
        var length := |text|;
        if length == 0 || lower.offset == 0 || lower.offset > length {
          return;
        }
        text := text[..lower.offset - 1] + text[lower.offset..];
        cursor := cursor.(offset := cursor.offset - 1);
      }
    }

    /** `forward_delete`: removes the selection, or the character after
        the cursor, which stays where it is. */
    method ForwardDelete()
      requires Valid()
      modifies this
      ensures Valid()
      ensures HasSelection(old(start), old(cursor)) ==>
        var span := SelectionSpan(old(start).value, old(cursor), |old(text)|);
        && text == Splice(old(text), span.0, span.1, [])
        && cursor == old(cursor).(offset := span.0)
        && start == None
      ensures !HasSelection(old(start), old(cursor)) ==>
        && start == EmptySelectionAfter(old(start), mouseButtonsDown)
        && cursor == old(cursor)
        && (old(cursor).offset < |old(text)| ==>
              text == Splice(old(text), old(cursor).offset, old(cursor).offset + 1, []))
        && (old(cursor).offset == |old(text)| ==> text == old(text))
      ensures mouseButtonsDown == old(mouseButtonsDown)
    {
      var lower, upper := SelectedRange();
      if upper.Some? {
        ReplaceRange(lower, upper.value, []);
      } else if lower.offset < |text| {
        text := text[..lower.offset] + text[lower.offset + 1..];
      }
    }

    /** `move_cursor`: moves by one character or one word and always resets
        the affinity to `Before`; the offset stays within the text. Moving
        backwards by word uses the corrected search (see the findings). */
    method MoveCursor(direction: Affinity, mode: NavigationMode, isWord: char -> bool)
      requires Valid()
      modifies this
      ensures Valid()
      ensures cursor.affinity == Before
      ensures text == old(text) && start == old(start) && mouseButtonsDown == old(mouseButtonsDown)
      ensures direction == Before && mode == Grapheme ==>
        cursor.offset == if old(cursor).offset > 0 then old(cursor).offset - 1 else 0
      ensures direction == After && mode == Grapheme ==>
        cursor.offset == if old(cursor).offset < |text| then old(cursor).offset + 1 else old(cursor).offset
      ensures direction == Before && mode == Word ==>
        cursor.offset == PreviousWordStart(WordStarts(text, isWord), old(cursor).offset)
      ensures direction == After && mode == Word && old(cursor).offset < |text| ==>
        cursor.offset == match FirstWord(text[old(cursor).offset..], isWord)
          case Some(w) => old(cursor).offset + w.0 + w.1
          case None => |text|
      ensures direction == After && mode == Word && old(cursor).offset == |text| ==> cursor.offset == |text|
    {
      var t, offset := text, cursor.offset;
      var moved := offset;
      match (direction, mode) {
        case (Before, Grapheme) =>
          if 0 < offset {
            moved := offset - 1;
          } else {
            moved := 0;
          }
        case (After, Grapheme) =>
          if offset < |t| {
            moved := offset + 1;
          }
        case (Before, Word) =>
          moved := FindPreviousWordStart(WordStarts(t, isWord), offset);
        case (After, Word) =>
          if offset < |t| {
            match FirstWord(t[offset..], isWord) {
              case Some(w) =>
                moved := offset + w.0 + w.1;
              case None =>
                moved := |t|;
            }
          }
      }
      cursor := Cursor(moved, Before);
    }

    /** The arrow keys: with shift a selection starts at the cursor, without
        it any selection is dropped; then the cursor moves. */
    method ArrowKey(direction: Affinity, shift: bool, wordSelect: bool, isWord: char -> bool)
      requires Valid()
      modifies this
      ensures Valid()
      ensures shift && old(start).None? ==> start == Some(old(cursor))
      ensures !shift ==> start == None
      ensures shift && old(start).Some? ==> start == old(start)
      ensures text == old(text) && cursor.affinity == Before
    {
      if start.None? && shift {
        start := Some(cursor);
      } else if start.Some? && !shift {
        start := None;
      }
      MoveCursor(direction, if wordSelect then Word else Grapheme, isWord);
    }

    /** `mouse_down`, with the hit-tested cursor given: a click starts an
        empty selection at the clicked position. */
    method MouseDown(at: Cursor)
      requires Valid() && at.offset <= |text|
      modifies this
      ensures Valid()
      ensures mouseButtonsDown == old(mouseButtonsDown) + 1 && cursor == at && start == Some(at)
      ensures text == old(text)
    {
      mouseButtonsDown := mouseButtonsDown + 1;
      cursor := at;
      start := Some(at);
    }

    /** `mouse_drag`, with the hit-tested cursor given. */
    method MouseDrag(at: Cursor)
      requires Valid() && at.offset <= |text|
      modifies this
      ensures Valid()
      ensures cursor == at && start == old(start) && text == old(text)
    {
      cursor := at;
    }

    /** `mouse_up`. */
    method MouseUp()
      requires mouseButtonsDown > 0
      modifies this
      ensures mouseButtonsDown == old(mouseButtonsDown) - 1
      ensures text == old(text) && cursor == old(cursor) && start == old(start)
    {
      mouseButtonsDown := mouseButtonsDown - 1;
    }
  }

  /** Typing a character and pressing backspace restores the text and the
      cursor, wherever the cursor was and whatever the text. */
  method TypeThenBackspace(initial: seq<char>, at: nat, c: char) returns (after: seq<char>, offset: nat)
    requires at <= |initial|
    ensures after == initial && offset == at
  {
    var input := new Input(initial);
    input.MouseDown(Cursor(at, Before));
    input.MouseUp();
    input.ReplaceSelection([c]);
    input.Delete();
    InsertThenRemove(initial, at, [c]);
    after, offset := input.text, input.cursor.offset;
  }

  /** Select-all followed by typing replaces the whole text. */
  method SelectAllThenType(initial: seq<char>, s: seq<char>) returns (after: seq<char>, offset: nat)
    ensures after == s && offset == |s|
  {
    var input := new Input(initial);
    input.SelectAll();
    input.ReplaceSelection(s);
    after, offset := input.text, input.cursor.offset;
  }
}
