/** The text input of the rasterizer front end
    (widgets/src/input/rasterizer.rs): its cursor, the replacement of the
    selection, backspace and the arrow keys, the notifications it sends to
    the widget, and the blinking of the caret. The text is the rich text of
    text/src/rich.rs; pixel geometry, the clipboard and rendering are not
    modelled, and the clock is a parameter (milliseconds). */
module GooeyInputRaster {
  import opened Common
  import opened GooeyText
  import opened GooeyRichText

  /** `CURSOR_BLINK_MS`. */
  const CURSOR_BLINK_MS: nat := 500

  /** The backspace character, U+0008. */
  const BACKSPACE: char := 8 as char

  /** `Cursor` without its blink state: where the caret is, and the other
      end of the selection when there is one. */
  datatype Cursor = Cursor(start: Position, end: Option<Position>)

  /** `Ord::min` on positions. */
  function MinPosition(a: Position, b: Position): (r: Position)
    ensures r == a || r == b
    ensures PosLe(r, a) && PosLe(r, b)
  {
    if PosLe(a, b) then a else b
  }

  /** `Ord::max` on positions. */
  function MaxPosition(a: Position, b: Position): (r: Position)
    ensures r == a || r == b
    ensures PosLe(a, r) && PosLe(b, r)
  {
    if PosLe(a, b) then b else a
  }

  /** `Cursor::selection_start`: the earlier end of the selection, or the
      caret when nothing is selected. */
  function SelectionStart(c: Cursor): (r: Position)
    ensures c.end.None? ==> r == c.start
    ensures c.end.Some? ==> (r == c.start || r == c.end.value) && PosLe(r, c.start) && PosLe(r, c.end.value)
  {
    match c.end
    case None => c.start
    case Some(e) => MinPosition(c.start, e)
  }

  /** `Cursor::selection_end`: the later end of the selection, or the caret
      when nothing is selected. */
  function SelectionEnd(c: Cursor): (r: Position)
    ensures c.end.None? ==> r == c.start
    ensures c.end.Some? ==> (r == c.start || r == c.end.value) && PosLe(c.start, r) && PosLe(c.end.value, r)
  {
    match c.end
    case None => c.start
    case Some(e) => MaxPosition(c.start, e)
  }

  /** The selection's ends are the cursor's two positions, in order. */
  lemma SelectionIsOrdered(c: Cursor)
    ensures PosLe(SelectionStart(c), SelectionEnd(c))
    ensures c.end.Some? ==>
      || (SelectionStart(c) == c.start && SelectionEnd(c) == c.end.value)
      || (SelectionStart(c) == c.end.value && SelectionEnd(c) == c.start)
    ensures SelectionStart(c) == SelectionEnd(c) <==> c.end.None? || c.end.value == c.start
  {
    PositionOrderIsTotal(SelectionStart(c), c.start, SelectionEnd(c));
    if c.end.Some? {
      PositionOrderIsTotal(c.start, c.end.value, c.start);
    }
  }

  // ---------------------------------------------------------------------
  // Character offsets

  /** A position that lies within the text whose paragraphs are `ss`. */
  predicate InText(ss: seq<seq<char>>, p: Position)
  {
    p.paragraph < |ss| && p.offset <= |ss[p.paragraph]|
  }

  /** Where paragraph `k` starts in the text joined by line feeds. */
  function ParagraphStart(ss: seq<seq<char>>, k: nat): (r: nat)
    requires k <= |ss|
  {
    if k == 0 then 0 else ParagraphStart(ss, k - 1) + |ss[k - 1]| + 1
  }

  /** The character offset of a position in `to_string`'s result (the text
      whose paragraphs are `ss`). */
  function CharacterOffset(ss: seq<seq<char>>, p: Position): (r: nat)
    ensures p.paragraph <= |ss| ==> r == ParagraphStart(ss, p.paragraph) + p.offset
  {
    ParagraphStart(ss, Min(p.paragraph, |ss|)) + p.offset
  }

  /** A later paragraph starts after the end of an earlier one and its line
      feed. */
  lemma {:induction false} ParagraphStartGrows(ss: seq<seq<char>>, i: nat, j: nat)
    requires i < j <= |ss|
    ensures ParagraphStart(ss, i) + |ss[i]| + 1 <= ParagraphStart(ss, j)
    decreases j
  {
    if j > i + 1 {
      ParagraphStartGrows(ss, i, j - 1);
    }
  }

  /** Paragraph starts index the joined text: the text from paragraph `k`'s
      start is that paragraph joined with the ones after it. */
  lemma {:induction false} ParagraphStartIndexesJoin(ss: seq<seq<char>>, k: nat)
    requires k < |ss|
    ensures ParagraphStart(ss, k) + |Join(ss[k..])| == |Join(ss)|
    ensures Join(ss)[ParagraphStart(ss, k)..] == Join(ss[k..])
    decreases k
  {
    if k > 0 {
      ParagraphStartIndexesJoin(ss, k - 1);
      var rest := ss[k - 1..];
      assert rest[1..] == ss[k..];
      assert Join(rest) == ss[k - 1] + "\n" + Join(ss[k..]);
      var j := Join(ss);
      var p := ParagraphStart(ss, k - 1);
      assert j[p..] == Join(rest);
      assert j[p + |ss[k - 1]| + 1..] == j[p..][|ss[k - 1]| + 1..];
    }
  }

  /** Within the text, the character offset is strictly increasing in the
      position, so two positions share an offset only when they are equal;
      the end of the text is at the text's length. */
  lemma CharacterOffsetIsMonotone(ss: seq<seq<char>>, a: Position, b: Position)
    requires InText(ss, a) && InText(ss, b)
    ensures Compare(a, b) == Less ==> CharacterOffset(ss, a) < CharacterOffset(ss, b)
    ensures CharacterOffset(ss, a) == CharacterOffset(ss, b) <==> a == b
  {
    if a.paragraph < b.paragraph {
      ParagraphStartGrows(ss, a.paragraph, b.paragraph);
    } else if b.paragraph < a.paragraph {
      ParagraphStartGrows(ss, b.paragraph, a.paragraph);
    }
  }

  /** The character offset of the last position is the text's length. */
  lemma EndOffsetIsLength(ss: seq<seq<char>>)
    requires |ss| > 0
    ensures CharacterOffset(ss, Position(|ss| - 1, |ss[|ss| - 1]|)) == |Join(ss)|
  {
    ParagraphStartIndexesJoin(ss, |ss| - 1);
    assert ss[|ss| - 1..] == [ss[|ss| - 1]];
  }

  /** The selection the widget is told about: `selection_start` as a
      character offset, and `selection_end` only when it differs. */
  datatype WidgetSelection = WidgetSelection(start: nat, end: Option<nat>)

  /** The selection `notify_selection_changed` reports for cursor `c` in
      the text whose paragraphs are `ss`. */
  function NotifiedSelection(ss: seq<seq<char>>, c: Cursor): (r: WidgetSelection)
  {
    var s := CharacterOffset(ss, SelectionStart(c));
    var e := CharacterOffset(ss, SelectionEnd(c));
    WidgetSelection(s, if s == e then None else Some(e))
  }

  /** For a cursor within the text, the widget hears of a selection end
      exactly when something is selected, and then it lies after the start;
      the start is the offset of the earlier end. */
  lemma NotifiedSelectionMatchesCursor(ss: seq<seq<char>>, c: Cursor)
    requires InText(ss, c.start) && (c.end.Some? ==> InText(ss, c.end.value))
    ensures NotifiedSelection(ss, c).start == CharacterOffset(ss, SelectionStart(c))
    ensures NotifiedSelection(ss, c).end.None? <==> c.end.None? || c.end.value == c.start
    ensures NotifiedSelection(ss, c).end.Some? ==>
      NotifiedSelection(ss, c).start < NotifiedSelection(ss, c).end.value == CharacterOffset(ss, SelectionEnd(c))
  {
    SelectionIsOrdered(c);
    CharacterOffsetIsMonotone(ss, SelectionStart(c), SelectionEnd(c));
  }

  // ---------------------------------------------------------------------
  // Replacing the selection, on the paragraphs' strings

  /** `insert_str` on the paragraphs' strings. */
  function InsertedStrings(ss: seq<seq<char>>, at: Position, v: seq<char>): (r: seq<seq<char>>)
    ensures |r| == |ss|
  {
    if at.paragraph < |ss| then ss[at.paragraph := Inserted(ss[at.paragraph], at.offset, v)] else ss
  }

  /** Inserting nothing leaves every paragraph as it was. */
  lemma InsertNothing(ss: seq<seq<char>>, at: Position)
    ensures InsertedStrings(ss, at, []) == ss
  {
    if at.paragraph < |ss| && at.offset <= |ss[at.paragraph]| {
      assert ss[at.paragraph][..at.offset] + [] + ss[at.paragraph][at.offset..] == ss[at.paragraph];
    }
  }

  /** Where the replacement goes: the start of the selection. */
  function ReplacementAt(c: Cursor): (r: Position)
    ensures r == SelectionStart(c)
  {
    if c.end.Some? then SelectionStart(c) else c.start
  }

  /** `replace_selection` panics when the selection spans paragraphs and its
      last paragraph does not exist. */
  predicate ReplacePanics(n: nat, c: Cursor)
  {
    c.end.Some? && SelectionStart(c).paragraph != SelectionEnd(c).paragraph && SelectionEnd(c).paragraph >= n
  }

  /** The paragraphs' strings after `replace_selection(v)`: the selection
      (if any) removed, then `v` inserted at its start. */
  function ReplacedStrings(ss: seq<seq<char>>, c: Cursor, v: seq<char>): seq<seq<char>>
    requires !ReplacePanics(|ss|, c)
  {
    SelectionIsOrdered(c);
    var cleared := if c.end.Some? then RemovedStrings(ss, SelectionStart(c), SelectionEnd(c)) else ss;
    InsertedStrings(cleared, ReplacementAt(c), v)
  }

  /** For a cursor within the text, replacing the selection splices `v`
      between the text before the selection and the text after it: the
      paragraphs before stay, the selection's paragraphs become one, and
      the paragraphs after follow; the caret, moved on by `|v|`, lands right
      after `v`. */
  lemma ReplaceSelectionSplices(ss: seq<seq<char>>, c: Cursor, v: seq<char>)
    requires InText(ss, c.start) && (c.end.Some? ==> InText(ss, c.end.value))
    ensures var s, e := SelectionStart(c), SelectionEnd(c);
      var r := ReplacedStrings(ss, c, v);
      && |r| == |ss| - (e.paragraph - s.paragraph)
      && r[..s.paragraph] == ss[..s.paragraph]
      && r[s.paragraph] == ss[s.paragraph][..s.offset] + v + ss[e.paragraph][e.offset..]
      && r[s.paragraph + 1..] == ss[e.paragraph + 1..]
      && InText(r, Position(s.paragraph, s.offset + |v|))
      && r[s.paragraph][..s.offset + |v|] == ss[s.paragraph][..s.offset] + v
  {
    var s, e := SelectionStart(c), SelectionEnd(c);
    SelectionIsOrdered(c);
    var p := s.paragraph;
    var cleared := if c.end.Some? then RemovedStrings(ss, s, e) else ss;
    var joined := ss[p][..s.offset] + ss[e.paragraph][e.offset..];
    ClearedSelection(ss, c);
    assert joined[..s.offset] == ss[p][..s.offset];
    assert joined[s.offset..] == ss[e.paragraph][e.offset..];
    var r := InsertedStrings(cleared, s, v);
    assert r[p] == ss[p][..s.offset] + v + ss[e.paragraph][e.offset..];
    assert r[p][..s.offset + |v|] == ss[p][..s.offset] + v;
  }

  /** Removing the selection leaves the paragraphs before it, joins the
      text before the selection to the text after it, and keeps the
      paragraphs after it. */
  lemma ClearedSelection(ss: seq<seq<char>>, c: Cursor)
    requires InText(ss, c.start) && (c.end.Some? ==> InText(ss, c.end.value))
    ensures var s, e := SelectionStart(c), SelectionEnd(c);
      && s.paragraph <= e.paragraph < |ss| && s.offset <= |ss[s.paragraph]| && e.offset <= |ss[e.paragraph]|
      && var cleared := if c.end.Some? then RemovedStrings(ss, s, e) else ss;
      && |cleared| == |ss| - (e.paragraph - s.paragraph)
      && cleared[s.paragraph] == ss[s.paragraph][..s.offset] + ss[e.paragraph][e.offset..]
      && cleared[..s.paragraph] == ss[..s.paragraph]
      && cleared[s.paragraph + 1..] == ss[e.paragraph + 1..]
  {
    var s, e := SelectionStart(c), SelectionEnd(c);
    SelectionIsOrdered(c);
    var p := s.paragraph;
    var joined := ss[p][..s.offset] + ss[e.paragraph][e.offset..];
    if c.end.Some? && s.paragraph == e.paragraph {
      assert Removed(ss[p], s.offset, e.offset) == joined;
    }
  }

  /** Backspace with nothing selected selects the byte before the caret and
      replaces it with nothing: exactly that byte is removed. */
  lemma BackspaceRemovesPreviousByte(ss: seq<seq<char>>, start: Position)
    requires start.offset > 0
    ensures var c := Cursor(Position(start.paragraph, start.offset - 1), Some(start));
      && !ReplacePanics(|ss|, c)
      && SelectionStart(c) == Position(start.paragraph, start.offset - 1)
      && ReplacedStrings(ss, c, []) ==
           if start.paragraph < |ss|
           then ss[start.paragraph := Removed(ss[start.paragraph], start.offset - 1, start.offset)]
           else ss
  {
    var c := Cursor(Position(start.paragraph, start.offset - 1), Some(start));
    var p := start.paragraph;
    if p < |ss| {
      var t := Removed(ss[p], start.offset - 1, start.offset);
      assert Inserted(t, Min(start.offset - 1, |ss[p]|), []) == t;
      if start.offset - 1 > |ss[p]| {
        assert Inserted(t, start.offset - 1, []) == t;
      }
    }
  }

  // ---------------------------------------------------------------------
  // The widget and the input's state

  /** `BlinkState`: whether the caret shows, and when it next changes. */
  class BlinkState {
    var visible: bool
    var changeAt: int

    /** `BlinkState::default`: visible, changing one blink from now. */
    constructor(now: int)
      ensures visible && changeAt == now + CURSOR_BLINK_MS
    {
      visible := true;
      changeAt := now + CURSOR_BLINK_MS;
    }

    /** `force_on`: the caret shows for a whole blink from now. */
    method ForceOn(now: int)
      modifies this
      ensures visible && changeAt == now + CURSOR_BLINK_MS
    {
      visible := true;
      changeAt := now + CURSOR_BLINK_MS;
    }

    /** `update`: once the change time has passed the caret flips and the
        next change is one blink from now; the result is the time left until
        the next change, which is never in the past. */
    method Update(now: int) returns (r: Option<nat>)
      modifies this
      ensures old(changeAt) < now ==> visible == !old(visible) && changeAt == now + CURSOR_BLINK_MS
      ensures now <= old(changeAt) ==> visible == old(visible) && changeAt == old(changeAt)
      ensures changeAt >= now && r == Some(changeAt - now)
    {
      if changeAt < now {
        visible := !visible;
        changeAt := now + CURSOR_BLINK_MS;
      }
      r := DurationSince(changeAt, now);
    }
  }

  /** `Instant::checked_duration_since`: how long after `earlier` the
      instant `later` is, or `None` when it is before it. */
  function DurationSince(later: int, earlier: int): (r: Option<nat>)
    ensures r.Some? <==> earlier <= later
    ensures r.Some? ==> earlier + r.value == later
  {
    if earlier <= later then Some(later - earlier) else None
  }

  /** The `Input` widget's fields the rasterizer writes, with the number of
      times each callback was invoked. */
  class InputWidget {
    var value: seq<char>
    var selectionStart: nat
    var selectionEnd: Option<nat>
    var changed: nat
    var selectionChanged: nat

    constructor(initial: seq<char>)
      ensures value == initial && selectionStart == 0 && selectionEnd.None?
      ensures changed == 0 && selectionChanged == 0
    {
      value := initial;
      selectionStart := 0;
      selectionEnd := None;
      changed := 0;
      selectionChanged := 0;
    }
  }

  /** The outcome of an event handler. */
  datatype EventStatus = Processed | Ignored

  /** The keys the keyboard handler tells apart; `Other` stands for every
      key it ignores. */
  datatype Key = Left | Right | A | Other

  /** `InputState`: the text, the cursor and its blink state. */
  class InputState {
    const text: RichText
    const blink: BlinkState
    var cursor: Cursor

    ghost predicate Valid()
      reads this, text
    {
      text.Valid()
    }

    /** The widget knows the current value and selection: what
        `notify_changed` and `notify_selection_changed` leave behind. */
    ghost predicate Settled(widget: InputWidget)
      reads this, text, widget
    {
      && widget.value == text.ToString()
      && NotifiedSelection(Strings(text.paragraphs), cursor) == WidgetSelection(widget.selectionStart, widget.selectionEnd)
    }

    /** `InputState::default` with the text `initial` (as `initialize`
        sets it). */
    constructor(initial: seq<seq<Span>>, now: int)
      requires AllNonEmpty(initial)
      ensures Valid() && fresh(text) && fresh(blink)
      ensures text.paragraphs == initial && cursor == Cursor(Position(0, 0), None)
      ensures blink.visible
    {
      text := new RichText(initial);
      blink := new BlinkState(now);
      cursor := Cursor(Position(0, 0), None);
    }

    /** `notify_selection_changed`: the widget's selection becomes the
        cursor's selection as character offsets. */
    method NotifySelectionChanged(widget: InputWidget)
      modifies widget
      ensures var sel := NotifiedSelection(Strings(text.paragraphs), cursor);
        widget.selectionStart == sel.start && widget.selectionEnd == sel.end
      ensures widget.selectionChanged == old(widget.selectionChanged) + 1
      ensures widget.value == old(widget.value) && widget.changed == old(widget.changed)
    {
      var ss := Strings(text.paragraphs);
      var s := CharacterOffset(ss, SelectionStart(cursor));
      widget.selectionStart := s;
      var e := CharacterOffset(ss, SelectionEnd(cursor));
      if s == e {
        widget.selectionEnd := None;
      } else {
        widget.selectionEnd := Some(e);
      }
      widget.selectionChanged := widget.selectionChanged + 1;
    }

    /** `set_selection`. */
    method SetSelection(widget: InputWidget, start: Position, end: Option<Position>)
      modifies this, widget
      ensures cursor == Cursor(start, end)
      ensures var sel := NotifiedSelection(Strings(text.paragraphs), cursor);
        widget.selectionStart == sel.start && widget.selectionEnd == sel.end
      ensures widget.selectionChanged == old(widget.selectionChanged) + 1
      ensures widget.value == old(widget.value) && widget.changed == old(widget.changed)
    {
      cursor := Cursor(start, end);
      NotifySelectionChanged(widget);
    }

    /** The first half of `replace_selection`: a selection is removed from
        the text and the cursor collapses onto its start. `ok` is false
        where the source panics (a selection across paragraphs whose last
        paragraph is gone), and then nothing has changed. */
    method RemoveSelection() returns (ok: bool)
      requires Valid()
      modifies this, text
      ensures Valid()
      ensures ok == !ReplacePanics(|old(text.paragraphs)|, old(cursor))
      ensures !ok ==> text.paragraphs == old(text.paragraphs) && cursor == old(cursor)
      ensures ok ==>
        && Strings(text.paragraphs) ==
             (if old(cursor).end.Some?
              then RemovedStrings(Strings(old(text.paragraphs)), SelectionStart(old(cursor)), SelectionEnd(old(cursor)))
              else Strings(old(text.paragraphs)))
        && cursor == Cursor(SelectionStart(old(cursor)), None)
    {
      if cursor.end.Some? {
        var s := SelectionStart(cursor);
        var e := SelectionEnd(cursor);
        SelectionIsOrdered(cursor);
        if s.paragraph != e.paragraph && e.paragraph >= |text.paragraphs| {
          return false;
        }
        text.RemoveRange(s, e);
        cursor := Cursor(s, None);
      }
      ok := true;
    }

    /** `replace_selection(v)`: removes the selection if there is one and
        collapses the cursor onto its start, inserts `v` at the caret and
        moves the caret past it, shows the caret, and tells the widget of
        the new value and selection. `ok` is false where the source panics,
        and then nothing has changed. */
    method ReplaceSelection(widget: InputWidget, v: seq<char>, now: int) returns (ok: bool)
      requires Valid()
      modifies this, text, blink, widget
      ensures Valid()
      ensures ok == !ReplacePanics(|old(text.paragraphs)|, old(cursor))
      ensures !ok ==> text.paragraphs == old(text.paragraphs) && cursor == old(cursor)
      ensures ok ==>
        && Strings(text.paragraphs) == ReplacedStrings(Strings(old(text.paragraphs)), old(cursor), v)
        && cursor == Cursor(Position(SelectionStart(old(cursor)).paragraph, SelectionStart(old(cursor)).offset + |v|), None)
        && Settled(widget)
        && blink.visible && blink.changeAt == now + CURSOR_BLINK_MS
        && widget.changed == old(widget.changed) + 1
        && widget.selectionChanged == old(widget.selectionChanged) + 1
    {
      ok := RemoveSelection();
      if !ok {
        return;
      }
      var at := cursor.start;
      text.InsertStr(at, v);
      cursor := Cursor(Position(at.paragraph, at.offset + |v|), None);
      blink.ForceOn(now);
      widget.value := text.ToString();
      widget.changed := widget.changed + 1;
      NotifySelectionChanged(widget);
    }

    /** `receive_character`: backspace with nothing selected first selects
        the byte before the caret (when there is one); backspace then
        replaces the selection with nothing. Any other character that is not
        a control character replaces the selection; control characters are
        ignored. */
    method ReceiveCharacter(widget: InputWidget, ch: char, now: int) returns (status: EventStatus, ok: bool)
      requires Valid()
      modifies this, text, blink, widget
      ensures Valid()
      ensures ch == BACKSPACE ==> status == Processed
      ensures ch == BACKSPACE && old(cursor).end.None? && old(cursor).start.offset > 0 ==>
        && ok
        && var p := old(cursor).start;
           var ss := Strings(old(text.paragraphs));
           && Strings(text.paragraphs) ==
                (if p.paragraph < |ss| then ss[p.paragraph := Removed(ss[p.paragraph], p.offset - 1, p.offset)] else ss)
           && cursor == Cursor(Position(p.paragraph, p.offset - 1), None)
           && Settled(widget)
      ensures ch == BACKSPACE && !(old(cursor).end.None? && old(cursor).start.offset > 0) ==>
        && ok == !ReplacePanics(|old(text.paragraphs)|, old(cursor))
        && (!ok ==> text.paragraphs == old(text.paragraphs) && cursor == old(cursor))
        && (ok ==>
             && Strings(text.paragraphs) == ReplacedStrings(Strings(old(text.paragraphs)), old(cursor), [])
             && cursor == Cursor(SelectionStart(old(cursor)), None)
             && Settled(widget))
        && (old(cursor).end.None? ==> Strings(text.paragraphs) == Strings(old(text.paragraphs)))
      ensures ch != BACKSPACE && !IsControl(ch) ==>
        && status == Processed
        && ok == !ReplacePanics(|old(text.paragraphs)|, old(cursor))
        && (ok ==>
             && Strings(text.paragraphs) == ReplacedStrings(Strings(old(text.paragraphs)), old(cursor), [ch])
             && cursor == Cursor(Position(SelectionStart(old(cursor)).paragraph, SelectionStart(old(cursor)).offset + 1), None)
             && Settled(widget))
      ensures ch != BACKSPACE && IsControl(ch) ==>
        status == Ignored && ok && text.paragraphs == old(text.paragraphs) && cursor == old(cursor)
    {
      if ch == BACKSPACE {
        if cursor.end.None? && cursor.start.offset > 0 {
          var p := cursor.start;
          BackspaceRemovesPreviousByte(Strings(text.paragraphs), p);
          cursor := Cursor(PositionBefore(p).value, Some(p));
        }
        ghost var before := Strings(text.paragraphs);
        ghost var c := cursor;
        ok := ReplaceSelection(widget, [], now);
        if c.end.None? {
          InsertNothing(before, c.start);
        }
        status := Processed;
      } else if !IsControl(ch) {
        ok := ReplaceSelection(widget, [ch], now);
        status := Processed;
      } else {
        status, ok := Ignored, true;
      }
    }

    /** `keyboard` for a pressed key: Left and Right collapse the cursor one
        position before or after the selection's start, the primary
        modifier with A selects everything; a handled key shows the caret.
        `ok` is false where the source panics (`todo!()` at a paragraph
        edge, a caret past the last paragraph, or a text with no paragraph
        at all), and then nothing has changed. */
    method Keyboard(widget: InputWidget, key: Key, primary: bool, pressed: bool, now: int)
      returns (status: EventStatus, ok: bool)
      requires Valid()
      modifies this, blink, widget
      ensures Valid()
      ensures !ok ==> cursor == old(cursor)
      ensures ok && status == Processed ==> blink.visible && blink.changeAt == now + CURSOR_BLINK_MS
      ensures (!pressed || key == Other) ==> status == Ignored && ok && cursor == old(cursor)
      ensures pressed && key == Left ==>
        var b := PositionBefore(SelectionStart(old(cursor)));
        && ok == b.Some?
        && (ok ==> status == Processed && cursor == Cursor(b.value, None))
      ensures pressed && key == Right ==>
        var s := SelectionStart(old(cursor));
        && ok == (s.paragraph < |text.paragraphs| && text.PositionAfter(s).Some?)
        && (ok ==> status == Processed && cursor == Cursor(text.PositionAfter(s).value, None))
      ensures pressed && key == A && primary ==>
        && ok == (|text.paragraphs| > 0)
        && (ok ==> status == Processed && cursor == Cursor(Position(0, 0), Some(text.End())))
      ensures pressed && key == A && !primary ==> status == Processed && ok && cursor == old(cursor)
      ensures ok && pressed && key != Other && (key == A ==> primary) && old(widget.value) == text.ToString() ==>
        Settled(widget)
    {
      if !pressed || key == Other {
        return Ignored, true;
      }
      match key {
        case Left =>
          var b := PositionBefore(SelectionStart(cursor));
          if b.None? {
            return Ignored, false;
          }
          SetSelection(widget, b.value, None);
        case Right =>
          var s := SelectionStart(cursor);
          if s.paragraph >= |text.paragraphs| {
            return Ignored, false;
          }
          var a := text.PositionAfter(s);
          if a.None? {
            return Ignored, false;
          }
          SetSelection(widget, a.value, None);
        case A =>
          if primary {
            if |text.paragraphs| == 0 {
              return Ignored, false;
            }
            SetSelection(widget, Position(0, 0), Some(text.End()));
          }
      }
      blink.ForceOn(now);
      status, ok := Processed, true;
    }
  }

  // ---------------------------------------------------------------------
  // Scenarios

  /** Typing two characters and pressing backspace leaves the first: the
      widget sees the value "a" with the caret after it. */
  method TypeThenBackspace() returns (value: seq<char>, caret: nat, hasEnd: bool)
    ensures value == "a" && caret == 1 && !hasEnd
  {
    var state, widget := TypeTwoLetters();
    var s3, ok3 := state.ReceiveCharacter(widget, BACKSPACE, 2);
    assert Strings(state.text.paragraphs) == ["a"] by {
      assert Removed("ab", 1, 2) == "a";
    }
    value, caret, hasEnd := widget.value, widget.selectionStart, widget.selectionEnd.Some?;
  }

  /** Typing "a" and "b" into an empty field. */
  method TypeTwoLetters() returns (state: InputState, widget: InputWidget)
    ensures fresh(state) && fresh(state.text) && fresh(state.blink) && fresh(widget)
    ensures state.Valid() && Strings(state.text.paragraphs) == ["ab"]
    ensures state.cursor == Cursor(Position(0, 2), None)
  {
    state := new InputState(SpanParagraphs([[]]), 0);
    widget := new InputWidget([]);
    var s1, ok1 := state.ReceiveCharacter(widget, 'a', 0);
    assert Strings(state.text.paragraphs) == ["a"] by {
      assert Inserted([], 0, ['a']) == "a";
    }
    var s2, ok2 := state.ReceiveCharacter(widget, 'b', 1);
    assert Strings(state.text.paragraphs) == ["ab"] by {
      assert Inserted("a", 1, ['b']) == "ab";
    }
  }

  /** Selecting across two paragraphs and typing replaces the selection and
      joins the paragraphs. */
  method TypeOverSelection() returns (value: seq<char>, caret: nat)
    ensures value == "axd" && caret == 2
  {
    var state := new InputState(SpanParagraphs(["ab", "cd"]), 0);
    var widget := new InputWidget("ab\ncd");
    state.SetSelection(widget, Position(1, 1), Some(Position(0, 1)));
    var s, ok := state.ReceiveCharacter(widget, 'x', 0);
    assert Strings(state.text.paragraphs) == ["axd"] by {
      assert RemovedStrings(["ab", "cd"], Position(0, 1), Position(1, 1)) == ["ad"] by {
        assert "ab"[..1] + "cd"[1..] == "ad";
      }
      assert Inserted("ad", 1, ['x']) == "axd";
    }
    value, caret := widget.value, widget.selectionStart;
  }

  /** A caret created at time 0 shows until 500 ms have passed, hides at
      600 ms and shows again after another blink. */
  method BlinkScenario() returns (at400: bool, at600: bool, at1200: bool)
    ensures at400 && !at600 && at1200
  {
    var b := new BlinkState(0);
    var r1 := b.Update(400);
    at400 := b.visible;
    var r2 := b.Update(600);
    at600 := b.visible;
    var r3 := b.Update(1200);
    at1200 := b.visible;
  }
}
