/** Styled text as a list of spans (text/src/lib.rs): each span is a string
    with a style, offsets are byte offsets into the concatenation of the
    spans (one `char` per byte here), and range edits are applied span by
    span and followed by a clean-up of empty spans. Styles are opaque and
    modelled as numbers. */
module GooeyText {
  import opened Common

  /** `Span`. */
  datatype Span = Span(text: seq<char>, style: nat)

  /** `Text::len`: the total length of the spans' texts. */
  function Len(spans: seq<Span>): nat
  {
    if spans == [] then 0 else |spans[0].text| + Len(spans[1..])
  }

  /** `Text::to_string`: the spans' texts joined without separator. */
  function Concat(spans: seq<Span>): seq<char>
  {
    if spans == [] then [] else spans[0].text + Concat(spans[1..])
  }

  /** The length of a text is the length of its string. */
  lemma {:induction false} LenIsLengthOfConcat(spans: seq<Span>)
    ensures Len(spans) == |Concat(spans)|
  {
    if spans != [] {
      LenIsLengthOfConcat(spans[1..]);
    }
  }

  lemma ConcatCons(x: Span, rest: seq<Span>)
    ensures Concat([x] + rest) == x.text + Concat(rest)
  {
    assert ([x] + rest)[1..] == rest;
  }

  lemma {:induction false} ConcatAppend(s: seq<Span>, t: seq<Span>)
    ensures Concat(s + t) == Concat(s) + Concat(t)
  {
    if s == [] {
      assert s + t == t;
    } else {
      assert (s + t)[1..] == s[1..] + t;
      ConcatAppend(s[1..], t);
    }
  }

  /** The spans of `s` whose text is not empty, in order (`retain`). */
  function NonEmpty(spans: seq<Span>): (r: seq<Span>)
    ensures forall i | 0 <= i < |r| :: r[i].text != []
    ensures forall x | x in r :: x in spans
    ensures Concat(r) == Concat(spans)
    ensures |r| <= |spans|
  {
    if spans == [] then []
    else
      var rest := NonEmpty(spans[1..]);
      ConcatCons(spans[0], spans[1..]);
      assert [spans[0]] + spans[1..] == spans;
      if spans[0].text == [] then rest
      else
        ConcatCons(spans[0], rest);
        [spans[0]] + rest
  }

  /** `cleanup_spans`: an empty text keeps only its first span; otherwise
      the empty spans are dropped. */
  function Cleanup(spans: seq<Span>): seq<Span>
    requires |spans| > 0
  {
    if Len(spans) == 0 then spans[..1] else NonEmpty(spans)
  }

  /** Clean-up never changes the string, leaves exactly one span in an empty
      text, and otherwise leaves no empty span. */
  lemma CleanupFacts(spans: seq<Span>)
    requires |spans| > 0
    ensures Concat(Cleanup(spans)) == Concat(spans)
    ensures Len(spans) == 0 ==> Cleanup(spans) == [spans[0]]
    ensures Len(spans) > 0 ==> forall i | 0 <= i < |Cleanup(spans)| :: Cleanup(spans)[i].text != []
    ensures |Cleanup(spans)| > 0
  {
    LenIsLengthOfConcat(spans);
    if Len(spans) == 0 {
      LenIsLengthOfConcat(spans[..1]);
      assert spans[..1] == [spans[0]];
      assert Concat([spans[0]]) == spans[0].text;
    }
  }

  // ---------------------------------------------------------------------
  // Range edits

  /** What the closure given to `for_each_in_range_mut` does with the range
      relative to one span: `remove_range` deletes it, `insert_str` inserts
      a string at its start. */
  datatype SpanEdit = Remove | Insert(value: seq<char>)

  function ApplyEdit(t: seq<char>, rs: nat, re: nat, edit: SpanEdit): (r: seq<char>)
    requires rs <= re <= |t|
    ensures edit.Remove? ==> |r| == |t| - (re - rs)
    ensures edit.Insert? ==> |r| == |t| + |edit.value|
  {
    match edit
    case Remove => t[..rs] + t[re..]
    case Insert(v) => t[..rs] + v + t[rs..]
  }

  /** A span covering `[start, start + len]` is visited by a range
      `[a, b)` when it ends at or after `a` and starts before `b`. */
  predicate Visited(start: nat, len: nat, a: nat, b: nat)
  {
    start + len >= a && start < b
  }

  /** The range `[a, b)` relative to a span starting at `start`, clipped to
      the span's length. */
  function RelativeRange(start: nat, len: nat, a: nat, b: nat): (r: (nat, nat))
    requires a <= b && Visited(start, len, a, b)
    ensures r.0 <= r.1 <= len
    ensures start <= a ==> r.0 == a - start
    ensures start <= b <= start + len ==> r.1 == b - start
  {
    (SatSub(a, start), Min(SatSub(b, start), len))
  }

  /** The spans after `for_each_in_range_mut([a, b), edit)`, before the
      clean-up, when the first of `spans` starts at `start`: every visited
      span gets the edit, and the loop stops at the first span that starts
      at or after `b`. */
  function Edited(spans: seq<Span>, start: nat, a: nat, b: nat, edit: SpanEdit): (r: seq<Span>)
    requires a <= b
    ensures |r| == |spans|
  {
    if spans == [] then []
    else
      var l := |spans[0].text|;
      if start + l >= a && start >= b then spans
      else if Visited(start, l, a, b) then [EditSpan(spans[0], start, a, b, edit)] + Edited(spans[1..], start + l, a, b, edit)
      else [spans[0]] + Edited(spans[1..], start + l, a, b, edit)
  }

  /** The closure's effect on one visited span starting at `start`. */
  function EditSpan(s: Span, start: nat, a: nat, b: nat, edit: SpanEdit): (r: Span)
    requires a <= b && Visited(start, |s.text|, a, b)
    ensures r.style == s.style
  {
    var rel := RelativeRange(start, |s.text|, a, b);
    Span(ApplyEdit(s.text, rel.0, rel.1, edit), s.style)
  }

  /** `c` without the bytes from `x` to `y`, both clipped to its length. */
  function Removed(c: seq<char>, x: nat, y: nat): seq<char>
    requires x <= y
  {
    c[..Min(x, |c|)] + c[Min(y, |c|)..]
  }

  lemma RemoveVisitedStep(t: seq<char>, rc: seq<char>, start: nat, a: nat, b: nat)
    requires a <= b && Visited(start, |t|, a, b)
    ensures var rel := RelativeRange(start, |t|, a, b);
      t[..rel.0] + t[rel.1..] + Removed(rc, SatSub(a, start + |t|), SatSub(b, start + |t|))
        == Removed(t + rc, SatSub(a, start), SatSub(b, start))
  {
    var rel := RelativeRange(start, |t|, a, b);
    var rs, re := rel.0, rel.1;
    var c := t + rc;
    assert SatSub(a, start + |t|) == 0;
    assert c[..rs] == t[..rs];
    if b <= start + |t| {
      assert c[re..] == t[re..] + rc;
    } else {
      assert c[Min(SatSub(b, start), |c|)..] == rc[Min(SatSub(b, start + |t|), |rc|)..];
    }
  }

  lemma RemoveSkippedStep(t: seq<char>, rc: seq<char>, x: nat, y: nat, c: seq<char>, cx: nat, cy: nat)
    requires x <= y && c == t + rc && cx == x + |t| && cy == y + |t|
    ensures t + Removed(rc, x, y) == Removed(c, cx, cy)
  {
    assert c[..Min(x + |t|, |c|)] == t + rc[..Min(x, |rc|)];
    assert c[Min(y + |t|, |c|)..] == rc[Min(y, |rc|)..];
  }

  /** Removing `[a, b)` removes exactly those bytes of the string, across
      any number of span boundaries; a range reaching past the end is
      clipped to it. */
  lemma {:induction false} RemoveIsExact(spans: seq<Span>, start: nat, a: nat, b: nat)
    requires a <= b
    ensures Concat(Edited(spans, start, a, b, Remove)) == Removed(Concat(spans), SatSub(a, start), SatSub(b, start))
  {
    if spans != [] {
      var l := |spans[0].text|;
      if start + l >= a && start >= b {
        RemoveBreakCase(spans, start, a, b);
      } else {
        RemoveIsExact(spans[1..], start + l, a, b);
        if Visited(start, l, a, b) {
          RemoveVisitCase(spans, start, a, b);
        } else {
          RemoveSkipCase(spans, start, a, b);
        }
      }
    }
  }

  lemma RemoveBreakCase(spans: seq<Span>, start: nat, a: nat, b: nat)
    requires a <= b && spans != [] && start + |spans[0].text| >= a && start >= b
    ensures Concat(Edited(spans, start, a, b, Remove)) == Removed(Concat(spans), SatSub(a, start), SatSub(b, start))
  {
    var c := Concat(spans);
    assert c[..0] + c[0..] == c;
  }

  lemma RemoveSkipCase(spans: seq<Span>, start: nat, a: nat, b: nat)
    requires a <= b && spans != [] && start + |spans[0].text| < a
    requires Concat(Edited(spans[1..], start + |spans[0].text|, a, b, Remove))
      == Removed(Concat(spans[1..]), SatSub(a, start + |spans[0].text|), SatSub(b, start + |spans[0].text|))
    ensures Concat(Edited(spans, start, a, b, Remove)) == Removed(Concat(spans), SatSub(a, start), SatSub(b, start))
  {
    var l := |spans[0].text|;
    var x, y := SatSub(a, start + l), SatSub(b, start + l);
    ConcatFirst(spans);
    ConcatEditedSkips(spans, start, a, b, Remove);
    RemoveSkippedStep(spans[0].text, Concat(spans[1..]), x, y, Concat(spans), SatSub(a, start), SatSub(b, start));
  }

  lemma ConcatEditedSkips(spans: seq<Span>, start: nat, a: nat, b: nat, edit: SpanEdit)
    requires a <= b && spans != [] && start + |spans[0].text| < a
    ensures Concat(Edited(spans, start, a, b, edit))
      == spans[0].text + Concat(Edited(spans[1..], start + |spans[0].text|, a, b, edit))
  {
    EditedSkips(spans, start, a, b, edit);
    ConcatCons(spans[0], Edited(spans[1..], start + |spans[0].text|, a, b, edit));
  }

  lemma RemoveVisitCase(spans: seq<Span>, start: nat, a: nat, b: nat)
    requires a <= b && spans != [] && Visited(start, |spans[0].text|, a, b)
    requires Concat(Edited(spans[1..], start + |spans[0].text|, a, b, Remove))
      == Removed(Concat(spans[1..]), SatSub(a, start + |spans[0].text|), SatSub(b, start + |spans[0].text|))
    ensures Concat(Edited(spans, start, a, b, Remove)) == Removed(Concat(spans), SatSub(a, start), SatSub(b, start))
  {
    var l := |spans[0].text|;
    var head := EditSpan(spans[0], start, a, b, Remove);
    var rel := RelativeRange(start, l, a, b);
    assert head.text == spans[0].text[..rel.0] + spans[0].text[rel.1..];
    var tail := Edited(spans[1..], start + l, a, b, Remove);
    EditedVisits(spans, start, a, b, Remove);
    ConcatCons(head, tail);
    ConcatFirst(spans);
    RemoveVisitedStep(spans[0].text, Concat(spans[1..]), start, a, b);
  }

  lemma EditedVisits(spans: seq<Span>, start: nat, a: nat, b: nat, edit: SpanEdit)
    requires a <= b && spans != [] && Visited(start, |spans[0].text|, a, b)
    requires !(start + |spans[0].text| >= a && start >= b)
    ensures Edited(spans, start, a, b, edit)
      == [EditSpan(spans[0], start, a, b, edit)] + Edited(spans[1..], start + |spans[0].text|, a, b, edit)
  {
  }

  lemma EditedSkips(spans: seq<Span>, start: nat, a: nat, b: nat, edit: SpanEdit)
    requires a <= b && spans != [] && start + |spans[0].text| < a
    ensures Edited(spans, start, a, b, edit) == [spans[0]] + Edited(spans[1..], start + |spans[0].text|, a, b, edit)
  {
  }

  /** The spans after inserting `v` at `offset` into the first span that
      contains it (a span contains the offsets from its start to its end,
      both included); the spans after it are left alone. */
  function InsertedOnce(spans: seq<Span>, start: nat, offset: nat, v: seq<char>): (r: seq<Span>)
    ensures |r| == |spans|
  {
    if spans == [] then []
    else
      var l := |spans[0].text|;
      if start <= offset <= start + l then
        [InsertInto(spans[0], start, offset, v)] + spans[1..]
      else if offset < start then spans
      else [spans[0]] + InsertedOnce(spans[1..], start + l, offset, v)
  }

  /** `c` with `v` inserted at `k`, or `c` itself when `k` is past its end. */
  function Inserted(c: seq<char>, k: nat, v: seq<char>): seq<char>
  {
    if k <= |c| then c[..k] + v + c[k..] else c
  }

  lemma InsertSkippedStep(t: seq<char>, rc: seq<char>, j: nat, v: seq<char>, c: seq<char>, k: nat)
    requires c == t + rc && k == j + |t|
    ensures t + Inserted(rc, j, v) == Inserted(c, k, v)
  {
    if k <= |c| {
      assert c[..k] == t + rc[..j];
      assert c[k..] == rc[j..];
    }
  }

  /** Inserting at an offset within the string puts `v` there exactly once;
      an offset past the end changes nothing. */
  lemma {:induction false} InsertIsExact(spans: seq<Span>, start: nat, offset: nat, v: seq<char>)
    requires spans != [] || offset != start
    requires start <= offset
    ensures Concat(InsertedOnce(spans, start, offset, v)) == Inserted(Concat(spans), offset - start, v)
  {
    if spans != [] {
      var l := |spans[0].text|;
      if offset <= start + l {
        InsertHitCase(spans, start, offset, v);
      } else {
        InsertIsExact(spans[1..], start + l, offset, v);
        InsertSkipCase(spans, start, offset, v);
      }
    }
  }

  /** The string of non-empty spans is the first span's text followed by
      the string of the rest. */
  lemma ConcatFirst(spans: seq<Span>)
    requires spans != []
    ensures Concat(spans) == spans[0].text + Concat(spans[1..])
  {
  }

  lemma InsertHitCase(spans: seq<Span>, start: nat, offset: nat, v: seq<char>)
    requires spans != [] && start <= offset <= start + |spans[0].text|
    ensures Concat(InsertedOnce(spans, start, offset, v)) == Inserted(Concat(spans), offset - start, v)
  {
    ConcatFirst(spans);
    var head := InsertInto(spans[0], start, offset, v);
    assert InsertedOnce(spans, start, offset, v) == [head] + spans[1..];
    ConcatCons(head, spans[1..]);
    InsertHitStep(spans[0].text, Concat(spans[1..]), offset - start, v);
  }

  lemma InsertSkipCase(spans: seq<Span>, start: nat, offset: nat, v: seq<char>)
    requires spans != [] && start + |spans[0].text| < offset
    requires Concat(InsertedOnce(spans[1..], start + |spans[0].text|, offset, v))
      == Inserted(Concat(spans[1..]), offset - start - |spans[0].text|, v)
    ensures Concat(InsertedOnce(spans, start, offset, v)) == Inserted(Concat(spans), offset - start, v)
  {
    ConcatFirst(spans);
    var l := |spans[0].text|;
    var t, rc := spans[0].text, Concat(spans[1..]);
    var tail := InsertedOnce(spans[1..], start + l, offset, v);
    InsertedOnceSkips(spans, start, offset, v);
    ConcatCons(spans[0], tail);
    var j := offset - start - l;
    InsertSkippedStep(t, rc, j, v, Concat(spans), offset - start);
  }

  lemma InsertedOnceSkips(spans: seq<Span>, start: nat, offset: nat, v: seq<char>)
    requires spans != [] && start + |spans[0].text| < offset
    ensures InsertedOnce(spans, start, offset, v) == [spans[0]] + InsertedOnce(spans[1..], start + |spans[0].text|, offset, v)
  {
  }

  lemma InsertHitStep(t: seq<char>, rc: seq<char>, k: nat, v: seq<char>)
    requires k <= |t|
    ensures t[..k] + v + t[k..] + rc == Inserted(t + rc, k, v)
  {
    var c := t + rc;
    assert c[..k] == t[..k];
    assert c[k..] == t[k..] + rc;
  }



  /** Inserting, then cleaning up, puts `v` into the string at `offset`. */
  lemma InsertStrIsExact(spans: seq<Span>, offset: nat, v: seq<char>)
    requires |spans| > 0
    ensures Concat(Cleanup(InsertedOnce(spans, 0, offset, v))) == Inserted(Concat(spans), offset, v)
  {
    InsertIsExact(spans, 0, offset, v);
    CleanupFacts(InsertedOnce(spans, 0, offset, v));
  }

  /** Removing, then cleaning up, takes `[a, b)` out of the string. */
  lemma RemoveRangeIsExact(spans: seq<Span>, a: nat, b: nat)
    requires |spans| > 0 && a <= b
    ensures Concat(Cleanup(Edited(spans, 0, a, b, Remove))) == Removed(Concat(spans), a, b)
  {
    RemoveIsExact(spans, 0, a, b);
    CleanupFacts(Edited(spans, 0, a, b, Remove));
  }

  /** `insert_str` as written: `for_each_in_range_mut(offset..offset + 1)`
      visits every span containing `offset`, so at a boundary between two
      spans both of them receive the string. */
  function InsertStrAsWritten(spans: seq<Span>, offset: nat, v: seq<char>): seq<Span>
    requires |spans| > 0
  {
    Cleanup(Edited(spans, 0, offset, offset + 1, Insert(v)))
  }

  /** Inserting "x" at offset 1 of the spans "1" and "2" yields "1xx2". */
  lemma InsertStrAsWrittenDuplicatesAtBoundary()
    ensures Concat(InsertStrAsWritten([Span("1", 0), Span("2", 0)], 1, "x")) == "1xx2"
  {
    var spans := [Span("1", 0), Span("2", 0)];
    assert EditSpan(Span("2", 0), 1, 1, 2, Insert("x")) == Span("x2", 0);
    assert Edited([Span("2", 0)], 1, 1, 2, Insert("x")) == [Span("x2", 0)];
    assert EditSpan(Span("1", 0), 0, 1, 2, Insert("x")) == Span("1x", 0);
    assert spans[1..] == [Span("2", 0)];
    var e := Edited(spans, 0, 1, 2, Insert("x"));
    assert e == [Span("1x", 0), Span("x2", 0)];
    CleanupFacts(e);
    ConcatCons(Span("1x", 0), [Span("x2", 0)]);
    ConcatCons(Span("x2", 0), []);
  }

  /** Within a single span there are no boundaries, and `insert_str` as
      written inserts exactly once. */
  lemma InsertStrAsWrittenSingleSpan(x: Span, offset: nat, v: seq<char>)
    ensures InsertStrAsWritten([x], offset, v) == Cleanup(InsertedOnce([x], 0, offset, v))
  {
    if offset <= |x.text| {
      assert EditSpan(x, 0, offset, offset + 1, Insert(v)) == InsertInto(x, 0, offset, v);
    }
  }

  lemma EditedVisitStep(s: seq<Span>, i: nat, start: nat, a: nat, b: nat, edit: SpanEdit)
    requires a <= b && i < |s| && Visited(start, |s[i].text|, a, b)
    ensures Edited(s[i..], start, a, b, edit)
      == [EditSpan(s[i], start, a, b, edit)] + Edited(s[i + 1..], start + |s[i].text|, a, b, edit)
  {
    assert s[i..][0] == s[i] && s[i..][1..] == s[i + 1..];
  }

  lemma EditedSkipStep(s: seq<Span>, i: nat, start: nat, a: nat, b: nat, edit: SpanEdit)
    requires a <= b && i < |s| && start + |s[i].text| < a
    ensures Edited(s[i..], start, a, b, edit) == [s[i]] + Edited(s[i + 1..], start + |s[i].text|, a, b, edit)
  {
    assert s[i..][0] == s[i] && s[i..][1..] == s[i + 1..];
  }

  lemma EditedBreakStep(s: seq<Span>, i: nat, start: nat, a: nat, b: nat, edit: SpanEdit)
    requires a <= b && i < |s| && start + |s[i].text| >= a && start >= b
    ensures Edited(s[i..], start, a, b, edit) == s[i..]
  {
    assert s[i..][0] == s[i];
  }


  /** The span `insert_str` edits when it contains the offset. */
  function InsertInto(x: Span, start: nat, offset: nat, v: seq<char>): Span
    requires start <= offset <= start + |x.text|
  {
    Span(ApplyEdit(x.text, offset - start, offset - start, Insert(v)), x.style)
  }

  /** The invariant of the loop of `insert_str`: the spans already passed
      over, `done`, followed by the insertion into the rest, which starts
      at `start`, is the whole result. */
  ghost predicate InsertProgress(before: seq<Span>, done: seq<Span>, i: nat, start: nat, offset: nat, v: seq<char>)
  {
    && i <= |before|
    && InsertedOnce(before, 0, offset, v) == done + InsertedOnce(before[i..], start, offset, v)
  }

  lemma InsertLoopStart(before: seq<Span>, offset: nat, v: seq<char>)
    ensures InsertProgress(before, [], 0, 0, offset, v)
  {
    assert before[0..] == before;
  }

  /** A loop visit that finds the span containing the offset completes the
      insertion. */
  lemma InsertLoopHit(before: seq<Span>, done: seq<Span>, i: nat, start: nat, offset: nat, v: seq<char>)
    requires InsertProgress(before, done, i, start, offset, v) && i < |before|
    requires start <= offset <= start + |before[i].text|
    ensures InsertedOnce(before, 0, offset, v) == done + [InsertInto(before[i], start, offset, v)] + before[i + 1..]
  {
    assert before[i..][0] == before[i] && before[i..][1..] == before[i + 1..];
  }

  /** A loop visit that finds a span starting after the offset stops with
      the remaining spans untouched. */
  lemma InsertLoopPast(before: seq<Span>, done: seq<Span>, i: nat, start: nat, offset: nat, v: seq<char>)
    requires InsertProgress(before, done, i, start, offset, v) && i < |before|
    requires offset < start
    ensures InsertedOnce(before, 0, offset, v) == done + before[i..]
  {
    assert before[i..][0] == before[i];
  }

  /** Passing over a span that ends before the offset keeps the invariant. */
  lemma InsertLoopSkip(before: seq<Span>, done: seq<Span>, i: nat, start: nat, offset: nat, v: seq<char>)
    requires InsertProgress(before, done, i, start, offset, v) && i < |before|
    requires start + |before[i].text| < offset
    ensures InsertProgress(before, done + [before[i]], i + 1, start + |before[i].text|, offset, v)
  {
    assert before[i..][0] == before[i] && before[i..][1..] == before[i + 1..];
    var t := InsertedOnce(before[i + 1..], start + |before[i].text|, offset, v);
    assert done + ([before[i]] + t) == done + [before[i]] + t;
  }

  lemma InsertLoopDone(before: seq<Span>, done: seq<Span>, i: nat, start: nat, offset: nat, v: seq<char>)
    requires InsertProgress(before, done, i, start, offset, v) && i == |before|
    ensures InsertedOnce(before, 0, offset, v) == done
  {
    assert before[i..] == [];
    assert done + [] == done;
  }

  /** The invariant of the loop of `for_each_in_range_mut`: the spans
      already visited, `done`, followed by the edit of the rest, which
      starts at `start`, is the whole result. */
  ghost predicate EditProgress(before: seq<Span>, done: seq<Span>, i: nat, start: nat, a: nat, b: nat, edit: SpanEdit)
  {
    && a <= b && i <= |before|
    && Edited(before, 0, a, b, edit) == done + Edited(before[i..], start, a, b, edit)
  }

  /** Editing a visited span keeps the invariant. */
  lemma EditLoopVisit(before: seq<Span>, done: seq<Span>, i: nat, start: nat, a: nat, b: nat, edit: SpanEdit)
    requires EditProgress(before, done, i, start, a, b, edit) && i < |before|
    requires Visited(start, |before[i].text|, a, b)
    ensures EditProgress(before, done + [EditSpan(before[i], start, a, b, edit)], i + 1, start + |before[i].text|, a, b, edit)
  {
    EditedVisitStep(before, i, start, a, b, edit);
    var x := EditSpan(before[i], start, a, b, edit);
    var t := Edited(before[i + 1..], start + |before[i].text|, a, b, edit);
    assert done + ([x] + t) == done + [x] + t;
  }

  /** Passing over a span that ends before the range keeps the invariant. */
  lemma EditLoopSkip(before: seq<Span>, done: seq<Span>, i: nat, start: nat, a: nat, b: nat, edit: SpanEdit)
    requires EditProgress(before, done, i, start, a, b, edit) && i < |before|
    requires start + |before[i].text| < a
    ensures EditProgress(before, done + [before[i]], i + 1, start + |before[i].text|, a, b, edit)
  {
    EditedSkipStep(before, i, start, a, b, edit);
    var t := Edited(before[i + 1..], start + |before[i].text|, a, b, edit);
    assert done + ([before[i]] + t) == done + [before[i]] + t;
  }

  /** Stopping at a span that starts at or after the range's end leaves the
      remaining spans as they were. */
  lemma EditLoopBreak(before: seq<Span>, done: seq<Span>, i: nat, start: nat, a: nat, b: nat, edit: SpanEdit)
    requires EditProgress(before, done, i, start, a, b, edit) && i < |before|
    requires start + |before[i].text| >= a && start >= b
    ensures Edited(before, 0, a, b, edit) == done + before[i..]
  {
    EditedBreakStep(before, i, start, a, b, edit);
  }

  lemma EditLoopStart(before: seq<Span>, a: nat, b: nat, edit: SpanEdit)
    requires a <= b
    ensures EditProgress(before, [], 0, 0, a, b, edit)
  {
    assert before[0..] == before;
  }

  lemma EditLoopDone(before: seq<Span>, done: seq<Span>, i: nat, start: nat, a: nat, b: nat, edit: SpanEdit)
    requires EditProgress(before, done, i, start, a, b, edit) && i == |before|
    ensures Edited(before, 0, a, b, edit) == done
  {
    assert before[i..] == [];
    assert done + [] == done;
  }

  // ---------------------------------------------------------------------
  // The text

  /** The loop of `for_each_in_range_mut`: walks the spans keeping the
      running start offset, applies `edit` to each span whose range reaches
      `a`, and stops at the first span that starts at or after `b`. The
      spans are rebuilt as the edited spans passed so far followed by the
      rest, which is what editing them in place leaves. */
  method EditSpansInRange(before: seq<Span>, a: nat, b: nat, edit: SpanEdit) returns (s: seq<Span>)
    requires a <= b
    ensures s == Edited(before, 0, a, b, edit)
  {
    s := [];
    var spanStart: nat := 0;
    var i := 0;
    var stopped := false;
    EditLoopStart(before, a, b, edit);
    while i < |before| && !stopped
      invariant i <= |before|
      invariant !stopped ==> EditProgress(before, s, i, spanStart, a, b, edit)
      invariant stopped ==> s == Edited(before, 0, a, b, edit)
      decreases |before| - i, !stopped
    {
      s, spanStart, stopped := VisitSpan(before, s, i, spanStart, a, b, edit);
      if !stopped {
        i := i + 1;
      }
    }
    if !stopped {
      EditLoopDone(before, s, i, spanStart, a, b, edit);
    }
  }

  /** One turn of the loop of `for_each_in_range_mut` on span `i`, which
      starts at `start`: stop before it, edit it, or pass over it. */
  method VisitSpan(before: seq<Span>, done: seq<Span>, i: nat, start: nat, a: nat, b: nat, edit: SpanEdit)
    returns (done': seq<Span>, next: nat, stop: bool)
    requires EditProgress(before, done, i, start, a, b, edit) && i < |before|
    ensures stop ==> done' == Edited(before, 0, a, b, edit)
    ensures !stop ==> next == start + |before[i].text| && EditProgress(before, done', i + 1, next, a, b, edit)
  {
    var l := |before[i].text|;
    next := start + l;
    if start + l >= a && start >= b {
      EditLoopBreak(before, done, i, start, a, b, edit);
      return done + before[i..], next, true;
    }
    if start + l >= a {
      EditLoopVisit(before, done, i, start, a, b, edit);
      done' := done + [EditSpan(before[i], start, a, b, edit)];
    } else {
      EditLoopSkip(before, done, i, start, a, b, edit);
      done' := done + [before[i]];
    }
    stop := false;
  }

  /** The loop of `insert_str`: walks the spans keeping the running start
      offset and inserts into the first span whose range holds `offset`. */
  method InsertIntoFirstSpan(before: seq<Span>, offset: nat, v: seq<char>) returns (s: seq<Span>)
    ensures s == InsertedOnce(before, 0, offset, v)
  {
    s := [];
    var spanStart: nat := 0;
    var i := 0;
    var stopped := false;
    InsertLoopStart(before, offset, v);
    while i < |before| && !stopped
      invariant i <= |before|
      invariant !stopped ==> InsertProgress(before, s, i, spanStart, offset, v)
      invariant stopped ==> s == InsertedOnce(before, 0, offset, v)
      decreases |before| - i, !stopped
    {
      s, spanStart, stopped := InsertVisitSpan(before, s, i, spanStart, offset, v);
      if !stopped {
        i := i + 1;
      }
    }
    if !stopped {
      InsertLoopDone(before, s, i, spanStart, offset, v);
    }
  }

  /** One turn of the loop of `insert_str` on span `i`, which starts at
      `start`: insert into it, stop before it, or pass over it. */
  method InsertVisitSpan(before: seq<Span>, done: seq<Span>, i: nat, start: nat, offset: nat, v: seq<char>)
    returns (done': seq<Span>, next: nat, stop: bool)
    requires InsertProgress(before, done, i, start, offset, v) && i < |before|
    ensures stop ==> done' == InsertedOnce(before, 0, offset, v)
    ensures !stop ==> next == start + |before[i].text| && InsertProgress(before, done', i + 1, next, offset, v)
  {
    var l := |before[i].text|;
    next := start + l;
    if start <= offset <= start + l {
      InsertLoopHit(before, done, i, start, offset, v);
      return done + [InsertInto(before[i], start, offset, v)] + before[i + 1..], next, true;
    }
    if offset < start {
      InsertLoopPast(before, done, i, start, offset, v);
      return done + before[i..], next, true;
    }
    InsertLoopSkip(before, done, i, start, offset, v);
    done', stop := done + [before[i]], false;
  }

  /** `Text`: its spans, edited in place. */
  class Text {
    var spans: seq<Span>

    /** `Text::default`: a single empty span (with the default style, 0). */
    constructor Default()
      ensures spans == [Span([], 0)]
    {
      spans := [Span([], 0)];
    }

    /** `Text::new`. */
    constructor (initial: seq<Span>)
      ensures spans == initial
    {
      spans := initial;
    }

    /** `for_each_in_range_mut`: applies `edit` to every span visited by
        `[a, b)`, then cleans the spans up. An empty span list would make the
        clean-up panic. */
    method ForEachInRangeMut(a: nat, b: nat, edit: SpanEdit)
      requires a <= b && |spans| > 0
      modifies this
      ensures spans == Cleanup(Edited(old(spans), 0, a, b, edit))
    {
      spans := EditSpansInRange(spans, a, b, edit);
      CleanupSpans();
    }

    /** `cleanup_spans`. */
    method CleanupSpans()
      requires |spans| > 0
      modifies this
      ensures spans == Cleanup(old(spans))
    {
      if Len(spans) == 0 {
        spans := spans[..1];
      } else {
        spans := NonEmpty(spans);
      }
    }

    /** `remove_range`: the string loses exactly the bytes in the range. */
    method RemoveRange(a: nat, b: nat)
      requires a <= b && |spans| > 0
      modifies this
      ensures spans == Cleanup(Edited(old(spans), 0, a, b, Remove))
      ensures Concat(spans) == Removed(Concat(old(spans)), a, b)
    {
      ghost var before := spans;
      ForEachInRangeMut(a, b, Remove);
      RemoveRangeIsExact(before, a, b);
    }

    /** `insert_str`, inserting into the first span that contains the
        offset only: the string gains `v` at `offset`, once. */
    method InsertStr(offset: nat, v: seq<char>)
      requires |spans| > 0
      modifies this
      ensures spans == Cleanup(InsertedOnce(old(spans), 0, offset, v))
      ensures Concat(spans) == Inserted(Concat(old(spans)), offset, v)
    {
      ghost var before := spans;
      spans := InsertIntoFirstSpan(spans, offset, v);
      CleanupSpans();
      InsertStrIsExact(before, offset, v);
    }

    /** `Text::len`. */
    function Length(): (r: nat)
      reads this
      ensures r == |Concat(spans)|
    {
      LenIsLengthOfConcat(spans);
      Len(spans)
    }
  }

  // ---------------------------------------------------------------------
  // The unit tests of text/src/lib.rs, as scenarios

  /** Removing a whole middle span keeps its neighbours as they were. */
  method RemoveMiddleSpan() returns (r: seq<Span>)
    ensures r == [Span("1", 0), Span("3", 0)]
  {
    var t := new Text([Span("1", 0), Span("2", 0), Span("3", 0)]);
    t.RemoveRange(1, 2);
    r := t.spans;
    MiddleSpanEdited();
    MiddleSpanCleanedUp();
  }

  lemma MiddleSpanEdited()
    ensures Edited([Span("1", 0), Span("2", 0), Span("3", 0)], 0, 1, 2, Remove)
      == [Span("1", 0), Span("", 0), Span("3", 0)]
  {
    assert Edited([Span("3", 0)], 2, 1, 2, Remove) == [Span("3", 0)];
    assert EditSpan(Span("2", 0), 1, 1, 2, Remove) == Span("", 0);
    EditedVisits([Span("2", 0), Span("3", 0)], 1, 1, 2, Remove);
    assert [Span("2", 0), Span("3", 0)][1..] == [Span("3", 0)];
    assert EditSpan(Span("1", 0), 0, 1, 2, Remove) == Span("1", 0);
    EditedVisits([Span("1", 0), Span("2", 0), Span("3", 0)], 0, 1, 2, Remove);
    assert [Span("1", 0), Span("2", 0), Span("3", 0)][1..] == [Span("2", 0), Span("3", 0)];
  }

  lemma MiddleSpanCleanedUp()
    ensures Cleanup([Span("1", 0), Span("", 0), Span("3", 0)]) == [Span("1", 0), Span("3", 0)]
  {
    var e := [Span("1", 0), Span("", 0), Span("3", 0)];
    assert Len(e) == 2;
    assert e[1..] == [Span("", 0), Span("3", 0)];
    assert NonEmpty(e[1..]) == NonEmpty([Span("3", 0)]) == [Span("3", 0)];
  }

  /** Removing the only character of a single span leaves one empty span. */
  method RemoveEntireSpan() returns (r: seq<Span>)
    ensures r == [Span("", 0)]
  {
    var t := new Text([Span("1", 0)]);
    t.RemoveRange(0, 1);
    r := t.spans;
    assert EditSpan(Span("1", 0), 0, 0, 1, Remove) == Span("", 0);
    assert Edited([Span("1", 0)], 0, 0, 1, Remove) == [Span("", 0)];
    assert Len([Span("", 0)]) == 0;
  }

  /** Removing across three spans trims the outer two and empties the inner. */
  method RemoveAcrossSpans() returns (r: seq<Span>)
    ensures r == [Span("123", 0), Span("456", 0)]
  {
    var t := new Text([Span("123a", 0), Span("b", 0), Span("c456", 0)]);
    t.RemoveRange(3, 6);
    r := t.spans;
    AcrossSpansEdited();
    AcrossSpansCleanedUp();
  }

  lemma AcrossSpansEdited()
    ensures Edited([Span("123a", 0), Span("b", 0), Span("c456", 0)], 0, 3, 6, Remove)
      == [Span("123", 0), Span("", 0), Span("456", 0)]
  {
    assert EditSpan(Span("c456", 0), 5, 3, 6, Remove) == Span("456", 0);
    EditedVisits([Span("c456", 0)], 5, 3, 6, Remove);
    assert EditSpan(Span("b", 0), 4, 3, 6, Remove) == Span("", 0);
    EditedVisits([Span("b", 0), Span("c456", 0)], 4, 3, 6, Remove);
    assert [Span("b", 0), Span("c456", 0)][1..] == [Span("c456", 0)];
    assert EditSpan(Span("123a", 0), 0, 3, 6, Remove) == Span("123", 0);
    EditedVisits([Span("123a", 0), Span("b", 0), Span("c456", 0)], 0, 3, 6, Remove);
    assert [Span("123a", 0), Span("b", 0), Span("c456", 0)][1..] == [Span("b", 0), Span("c456", 0)];
  }

  lemma AcrossSpansCleanedUp()
    ensures Cleanup([Span("123", 0), Span("", 0), Span("456", 0)]) == [Span("123", 0), Span("456", 0)]
  {
    var e := [Span("123", 0), Span("", 0), Span("456", 0)];
    assert Len(e) == 6;
    assert e[1..] == [Span("", 0), Span("456", 0)];
    assert NonEmpty(e[1..]) == NonEmpty([Span("456", 0)]) == [Span("456", 0)];
  }

  /** Inserting at the start and at the end of a single span. */
  method InsertAtEdges() returns (front: seq<Span>, back: seq<Span>)
    ensures front == [Span("12", 0)] && back == [Span("12", 0)]
  {
    var t := new Text([Span("2", 0)]);
    t.InsertStr(0, "1");
    front := t.spans;
    assert InsertInto(Span("2", 0), 0, 0, "1") == Span("12", 0);
    assert InsertedOnce([Span("2", 0)], 0, 0, "1") == [Span("12", 0)];
    var u := new Text([Span("1", 0)]);
    u.InsertStr(1, "2");
    back := u.spans;
    assert InsertInto(Span("1", 0), 0, 1, "2") == Span("12", 0);
    assert InsertedOnce([Span("1", 0)], 0, 1, "2") == [Span("12", 0)];
  }
}
