/** Multi-paragraph rich text (text/src/rich.rs): a list of paragraphs, each
    a span list as in `Text`, addressed by (paragraph, offset) positions.
    Paragraphs are kept as span lists; editing one applies the `Text`
    operations of the span model to it. */
module GooeyRichText {
  import opened Common
  import opened GooeyText

  /** `RichTextPosition`. */
  datatype Position = Position(paragraph: nat, offset: nat)

  datatype Ordering = Less | Equal | Greater

  /** `Ord for RichTextPosition`: by paragraph, then by offset. */
  function Compare(a: Position, b: Position): (r: Ordering)
    ensures r == Equal <==> a == b
    ensures r == Less <==> a.paragraph < b.paragraph || (a.paragraph == b.paragraph && a.offset < b.offset)
    ensures r == Greater <==> a.paragraph > b.paragraph || (a.paragraph == b.paragraph && a.offset > b.offset)
  {
    if a.paragraph < b.paragraph then Less
    else if a.paragraph > b.paragraph then Greater
    else if a.offset < b.offset then Less
    else if a.offset > b.offset then Greater
    else Equal
  }

  predicate PosLe(a: Position, b: Position)
  {
    Compare(a, b) != Greater
  }

  /** The order is total: antisymmetric, transitive and connected. */
  lemma PositionOrderIsTotal(a: Position, b: Position, c: Position)
    ensures Compare(a, b) == Less <==> Compare(b, a) == Greater
    ensures PosLe(a, b) && PosLe(b, a) ==> a == b
    ensures PosLe(a, b) && PosLe(b, c) ==> PosLe(a, c)
    ensures PosLe(a, b) || PosLe(b, a)
  {
  }

  /** `position_before`: one byte back within the paragraph; at the start of
      the first paragraph the position stays. `None` stands for the
      `todo!()` panic at the start of a later paragraph. */
  function PositionBefore(p: Position): (r: Option<Position>)
    ensures p.offset > 0 ==> r == Some(Position(p.paragraph, p.offset - 1))
    ensures p.offset == 0 && p.paragraph == 0 ==> r == Some(p)
    ensures p.offset == 0 && p.paragraph > 0 ==> r.None?
  {
    if p.offset == 0 then
      if p.paragraph > 0 then None else Some(p)
    else Some(Position(p.paragraph, p.offset - 1))
  }

  /** The paragraphs' strings. */
  function Strings(ps: seq<seq<Span>>): (r: seq<seq<char>>)
    ensures |r| == |ps|
    ensures forall k | 0 <= k < |ps| :: r[k] == Concat(ps[k])
  {
    seq(|ps|, k requires 0 <= k < |ps| => Concat(ps[k]))
  }

  /** `join("\n")`. */
  function Join(ss: seq<seq<char>>): seq<char>
  {
    if |ss| == 0 then []
    else if |ss| == 1 then ss[0]
    else ss[0] + "\n" + Join(ss[1..])
  }

  /** What the closure given to `for_each_in_range_mut` does to one
      paragraph: `remove_range` removes the range, `insert_str` inserts. */
  datatype ParagraphEdit = RemoveText | InsertText(value: seq<char>)

  /** Where the range a paragraph receives starts: at the start offset in
      the range's first paragraph, at 0 in the others. */
  function RangeStart(k: nat, s: Position): (r: nat)
    ensures r == if k == s.paragraph then s.offset else 0
  {
    if k == s.paragraph then s.offset else 0
  }

  /** Where it ends: at the end offset, clipped to the paragraph's length,
      in the range's last paragraph, at the paragraph's length in the
      others. */
  function RangeEnd(spans: seq<Span>, k: nat, e: Position): (r: nat)
    ensures r <= Len(spans)
    ensures k == e.paragraph ==> r == Min(Len(spans), e.offset)
    ensures k != e.paragraph ==> r == Len(spans)
  {
    if k == e.paragraph then Min(Len(spans), e.offset) else Len(spans)
  }

  /** `Text::remove_range` or `Text::insert_str` on one paragraph. A removal
      range whose start lies past its end only arises when the start lies
      past the paragraph's end, where no span is visited and only the
      clean-up runs. */
  function EditParagraph(spans: seq<Span>, a: nat, b: nat, edit: ParagraphEdit): (r: seq<Span>)
    requires |spans| > 0
    ensures |r| > 0
  {
    CleanupFacts(spans);
    match edit
    case RemoveText =>
      if a <= b then
        CleanupFacts(Edited(spans, 0, a, b, Remove));
        Cleanup(Edited(spans, 0, a, b, Remove))
      else Cleanup(spans)
    case InsertText(v) =>
      CleanupFacts(InsertedOnce(spans, 0, a, v));
      Cleanup(InsertedOnce(spans, 0, a, v))
  }

  /** What removing `[a, b)` from one paragraph does to its string. */
  lemma EditParagraphRemoves(spans: seq<Span>, a: nat, b: nat)
    requires |spans| > 0
    ensures Concat(EditParagraph(spans, a, b, RemoveText))
      == if a <= b then Removed(Concat(spans), a, b) else Concat(spans)
  {
    CleanupFacts(spans);
    if a <= b {
      RemoveRangeIsExact(spans, a, b);
    }
  }

  /** Paragraph `k`, holding `spans`, after the edit loop: edited when `k`
      lies between the range's paragraphs. */
  function VisitedParagraph(spans: seq<Span>, k: nat, s: Position, e: Position, edit: ParagraphEdit): (r: seq<Span>)
    requires |spans| > 0
    ensures |r| > 0
  {
    if s.paragraph <= k <= e.paragraph then
      EditParagraph(spans, RangeStart(k, s), RangeEnd(spans, k, e), edit)
    else spans
  }

  ghost predicate AllNonEmpty(ps: seq<seq<Span>>)
  {
    forall k | 0 <= k < |ps| :: |ps[k]| > 0
  }

  /** The paragraphs after the edit loop of `for_each_in_range_mut`. */
  function EditedParagraphs(ps: seq<seq<Span>>, s: Position, e: Position, edit: ParagraphEdit): (r: seq<seq<Span>>)
    requires AllNonEmpty(ps)
    ensures |r| == |ps| && AllNonEmpty(r)
    ensures forall k | 0 <= k < |ps| && (k < s.paragraph || k > e.paragraph) :: r[k] == ps[k]
  {
    seq(|ps|, k requires 0 <= k < |ps| => VisitedParagraph(ps[k], k, s, e, edit))
  }

  /** The paragraphs `remove_range`'s closure asks to remove: those strictly
      between the range's first and last paragraph that exist, as the
      indices `[InnerLow, InnerHigh)`. */
  function InnerLow(s: Position): nat { s.paragraph + 1 }

  function InnerHigh(n: nat, s: Position, e: Position): (r: nat)
    ensures r >= InnerLow(s)
    ensures InnerLow(s) < r ==> r <= n && r <= e.paragraph
  {
    Max(InnerLow(s), Min(e.paragraph, n))
  }

  /** The indices `[lo, hi)` in increasing order. */
  function Range(lo: nat, hi: nat): (r: seq<nat>)
    requires lo <= hi
    ensures |r| == hi - lo
    ensures forall j | 0 <= j < |r| :: r[j] == lo + j
  {
    seq(hi - lo, j requires 0 <= j < hi - lo => lo + j)
  }

  /** `ps` without the paragraphs the closure asked to remove. */
  function DropInner(ps: seq<seq<Span>>, s: Position, e: Position, edit: ParagraphEdit): (r: seq<seq<Span>>)
    ensures AllNonEmpty(ps) ==> AllNonEmpty(r)
  {
    if edit.RemoveText? && InnerLow(s) < InnerHigh(|ps|, s, e) then
      ps[..InnerLow(s)] + ps[InnerHigh(|ps|, s, e)..]
    else ps
  }

  /** The paragraphs after `for_each_in_range_mut(s..e)`. */
  function ForEachResult(ps: seq<seq<Span>>, s: Position, e: Position, edit: ParagraphEdit): (r: seq<seq<Span>>)
    requires AllNonEmpty(ps)
    ensures AllNonEmpty(r)
  {
    DropInner(EditedParagraphs(ps, s, e, edit), s, e, edit)
  }

  /** The paragraphs after `remove_range(s..e)`: the edit loop, then, when
      the range spans paragraphs, the paragraph after the first one is
      removed and its spans are appended to the first. The removal panics
      when that paragraph does not exist, which the precondition rules out. */
  function RemoveRangeResult(ps: seq<seq<Span>>, s: Position, e: Position): (r: seq<seq<Span>>)
    requires AllNonEmpty(ps) && PosLe(s, e) && (s.paragraph != e.paragraph ==> e.paragraph < |ps|)
  {
    var q := ForEachResult(ps, s, e, RemoveText);
    if s.paragraph == e.paragraph then q
    else
      DropInnerLength(EditedParagraphs(ps, s, e, RemoveText), s, e);
      MergeNext(q, s.paragraph)
  }

  /** The paragraph after the `p`-th removed and its spans appended to the
      `p`-th. */
  function MergeNext(ps: seq<seq<Span>>, p: nat): (r: seq<seq<Span>>)
    requires p + 1 < |ps|
  {
    (ps[..p + 1] + ps[p + 2..])[p := ps[p] + ps[p + 1]]
  }

  lemma MergeNextNonEmpty(ps: seq<seq<Span>>, p: nat)
    requires p + 1 < |ps| && AllNonEmpty(ps)
    ensures AllNonEmpty(MergeNext(ps, p))
  {
  }

  /** The paragraphs with the `p`-th and `q`-th joined into one and those
      between them gone. */
  function Merged(ps: seq<seq<Span>>, p: nat, q: nat): (r: seq<seq<Span>>)
    requires p < q < |ps|
  {
    ps[..p] + [ps[p] + ps[q]] + ps[q + 1..]
  }

  lemma DropInnerLength(ps: seq<seq<Span>>, s: Position, e: Position)
    requires s.paragraph < e.paragraph < |ps|
    ensures DropInner(ps, s, e, RemoveText) == ps[..s.paragraph + 1] + ps[e.paragraph..]
    ensures |DropInner(ps, s, e, RemoveText)| == |ps| - (e.paragraph - s.paragraph - 1)
  {
    if InnerLow(s) == e.paragraph {
      assert ps[..e.paragraph] + ps[e.paragraph..] == ps;
    }
  }

  /** The paragraphs after `insert_str(location, v)`. */
  function InsertStrResult(ps: seq<seq<Span>>, location: Position, v: seq<char>): (r: seq<seq<Span>>)
    requires AllNonEmpty(ps)
    ensures AllNonEmpty(r)
  {
    ForEachResult(ps, location, location, InsertText(v))
  }

  /** What `remove_range(s..e)` does to the paragraphs' strings, stated on
      the strings alone: within one paragraph the bytes between the offsets
      go; across paragraphs the first keeps what precedes the start, the
      last keeps what follows the end, the two are joined into one and the
      paragraphs between them disappear. Offsets are clipped to the
      paragraphs' lengths. */
  function RemovedStrings(ss: seq<seq<char>>, s: Position, e: Position): (r: seq<seq<char>>)
    requires PosLe(s, e) && (s.paragraph != e.paragraph ==> e.paragraph < |ss|)
    ensures |r| == if s.paragraph == e.paragraph then |ss| else |ss| - (e.paragraph - s.paragraph)
  {
    if s.paragraph == e.paragraph then
      if s.paragraph < |ss| then ss[s.paragraph := Removed(ss[s.paragraph], s.offset, e.offset)] else ss
    else
      var first := ss[s.paragraph];
      var last := ss[e.paragraph];
      ss[..s.paragraph] + [first[..Min(s.offset, |first|)] + last[Min(e.offset, |last|)..]] + ss[e.paragraph + 1..]
  }

  /** Removing up to a clipped end is removing up to the end itself. */
  lemma RemovedClipped(c: seq<char>, x: nat, y: nat)
    requires x <= y
    ensures (if x <= Min(|c|, y) then Removed(c, x, Min(|c|, y)) else c) == Removed(c, x, y)
  {
    if x > Min(|c|, y) {
      assert c[..|c|] + c[|c|..] == c;
    }
  }

  /** The first paragraph of a range across paragraphs keeps what precedes
      the start offset. */
  lemma FirstParagraphRemoves(spans: seq<Span>, offset: nat)
    requires |spans| > 0
    ensures var t := Concat(spans);
      Concat(EditParagraph(spans, offset, Len(spans), RemoveText)) == t[..Min(offset, |t|)]
  {
    var t := Concat(spans);
    LenIsLengthOfConcat(spans);
    EditParagraphRemoves(spans, offset, Len(spans));
    if offset > Len(spans) {
      assert t[..Min(offset, |t|)] == t;
    } else {
      assert t[..offset] + t[|t|..] == t[..offset];
    }
  }

  /** The last paragraph of a range across paragraphs keeps what follows
      the end offset. */
  lemma LastParagraphRemoves(spans: seq<Span>, offset: nat)
    requires |spans| > 0
    ensures var t := Concat(spans);
      Concat(EditParagraph(spans, 0, Min(Len(spans), offset), RemoveText)) == t[Min(offset, |t|)..]
  {
    var t := Concat(spans);
    LenIsLengthOfConcat(spans);
    EditParagraphRemoves(spans, 0, Min(Len(spans), offset));
    assert t[..0] + t[Min(offset, |t|)..] == t[Min(offset, |t|)..];
  }

  /** A range within one paragraph removes the bytes between its offsets. */
  lemma SingleParagraphRemoves(spans: seq<Span>, a: nat, b: nat)
    requires |spans| > 0 && a <= b
    ensures Concat(EditParagraph(spans, a, Min(Len(spans), b), RemoveText)) == Removed(Concat(spans), a, b)
  {
    LenIsLengthOfConcat(spans);
    EditParagraphRemoves(spans, a, Min(Len(spans), b));
    RemovedClipped(Concat(spans), a, b);
  }

  /** `remove_range` removes from the paragraphs' strings exactly what
      `RemovedStrings` describes. */
  lemma RemoveRangeStrings(ps: seq<seq<Span>>, s: Position, e: Position)
    requires AllNonEmpty(ps) && PosLe(s, e) && (s.paragraph != e.paragraph ==> e.paragraph < |ps|)
    ensures Strings(RemoveRangeResult(ps, s, e)) == RemovedStrings(Strings(ps), s, e)
  {
    if s.paragraph == e.paragraph {
      RemoveWithinParagraph(ps, s, e);
    } else {
      RemoveAcrossParagraphs(ps, s, e);
    }
  }

  lemma RemoveWithinParagraph(ps: seq<seq<Span>>, s: Position, e: Position)
    requires AllNonEmpty(ps) && PosLe(s, e) && s.paragraph == e.paragraph
    ensures Strings(RemoveRangeResult(ps, s, e)) == RemovedStrings(Strings(ps), s, e)
  {
    var edited := EditedParagraphs(ps, s, e, RemoveText);
    assert RemoveRangeResult(ps, s, e) == edited;
    var p := s.paragraph;
    if p < |ps| {
      assert edited[p] == EditParagraph(ps[p], s.offset, Min(Len(ps[p]), e.offset), RemoveText);
      SingleParagraphRemoves(ps[p], s.offset, e.offset);
      assert Strings(edited) == Strings(ps)[p := Concat(edited[p])];
    }
  }

  lemma RemoveAcrossParagraphs(ps: seq<seq<Span>>, s: Position, e: Position)
    requires AllNonEmpty(ps) && PosLe(s, e) && s.paragraph != e.paragraph && e.paragraph < |ps|
    ensures Strings(RemoveRangeResult(ps, s, e)) == RemovedStrings(Strings(ps), s, e)
  {
    MergedResult(ps, s, e);
    MergedStrings(ps, s, e);
  }

  lemma MergedStrings(ps: seq<seq<Span>>, s: Position, e: Position)
    requires AllNonEmpty(ps) && PosLe(s, e) && s.paragraph != e.paragraph && e.paragraph < |ps|
    ensures var edited := EditedParagraphs(ps, s, e, RemoveText);
      Strings(Merged(edited, s.paragraph, e.paragraph))
        == RemovedStrings(Strings(ps), s, e)
  {
    var edited := EditedParagraphs(ps, s, e, RemoveText);
    var p, q := s.paragraph, e.paragraph;
    assert edited[p] == EditParagraph(ps[p], s.offset, Len(ps[p]), RemoveText);
    assert edited[q] == EditParagraph(ps[q], 0, Min(Len(ps[q]), e.offset), RemoveText);
    FirstParagraphRemoves(ps[p], s.offset);
    LastParagraphRemoves(ps[q], e.offset);
    MergedStringsOf(Strings(ps), edited, s, e);
  }

  lemma MergedStringsOf(ss: seq<seq<char>>, es: seq<seq<Span>>, s: Position, e: Position)
    requires |es| == |ss| && s.paragraph < e.paragraph < |ss|
    requires forall k | 0 <= k < |ss| && (k < s.paragraph || k > e.paragraph) :: Concat(es[k]) == ss[k]
    requires Concat(es[s.paragraph]) == ss[s.paragraph][..Min(s.offset, |ss[s.paragraph]|)]
    requires Concat(es[e.paragraph]) == ss[e.paragraph][Min(e.offset, |ss[e.paragraph]|)..]
    ensures Strings(Merged(es, s.paragraph, e.paragraph))
      == RemovedStrings(ss, s, e)
  {
    var p, q := s.paragraph, e.paragraph;
    StringsOfMerge(es, p, q);
    SameOutside(Strings(es), ss, p, q);
  }

  /** Across paragraphs, `remove_range` keeps the edited paragraphs before
      the first and after the last and merges the first with the last. */
  lemma MergedResult(ps: seq<seq<Span>>, s: Position, e: Position)
    requires AllNonEmpty(ps) && PosLe(s, e) && s.paragraph != e.paragraph && e.paragraph < |ps|
    ensures var edited := EditedParagraphs(ps, s, e, RemoveText);
      RemoveRangeResult(ps, s, e)
        == Merged(edited, s.paragraph, e.paragraph)
  {
    var edited := EditedParagraphs(ps, s, e, RemoveText);
    DropInnerLength(edited, s, e);
    MergeShape(edited, s.paragraph, e.paragraph);
  }

  lemma SameOutside(a: seq<seq<char>>, b: seq<seq<char>>, p: nat, q: nat)
    requires |a| == |b| && p < q < |a|
    requires forall k | 0 <= k < |a| && (k < p || k > q) :: a[k] == b[k]
    ensures a[..p] == b[..p] && a[q + 1..] == b[q + 1..]
  {
  }

  /** The shape of `remove_range`'s result across paragraphs. */
  lemma MergeShape(edited: seq<seq<Span>>, p: nat, q: nat)
    requires p < q < |edited|
    ensures var d := edited[..p + 1] + edited[q..];
      MergeNext(d, p) == Merged(edited, p, q)
  {
    var d := edited[..p + 1] + edited[q..];
    assert d[p] == edited[p] && d[p + 1] == edited[q];
    assert d[p + 2..] == edited[q + 1..];
  }

  lemma StringsOfMerge(ps: seq<seq<Span>>, p: nat, q: nat)
    requires p < q < |ps|
    ensures Strings(Merged(ps, p, q))
      == Strings(ps)[..p] + [Concat(ps[p]) + Concat(ps[q])] + Strings(ps)[q + 1..]
  {
    ConcatAppend(ps[p], ps[q]);
    var m := ps[..p] + [ps[p] + ps[q]] + ps[q + 1..];
    forall k | 0 <= k < |m|
      ensures Strings(m)[k] == (Strings(ps)[..p] + [Concat(ps[p]) + Concat(ps[q])] + Strings(ps)[q + 1..])[k]
    {
      if k > p {
        assert m[k] == ps[k + q - p];
      }
    }
  }

  /** `insert_str` inserts `v` into the string of the location's paragraph
      at the location's offset, and changes no other paragraph. */
  lemma InsertStrStrings(ps: seq<seq<Span>>, location: Position, v: seq<char>)
    requires AllNonEmpty(ps)
    ensures var ss := Strings(ps);
      Strings(InsertStrResult(ps, location, v))
        == if location.paragraph < |ps|
           then ss[location.paragraph := Inserted(ss[location.paragraph], location.offset, v)]
           else ss
  {
    if location.paragraph < |ps| {
      CleanupFacts(ps[location.paragraph]);
      InsertStrIsExact(ps[location.paragraph], location.offset, v);
    }
  }

  // ---------------------------------------------------------------------
  // The rich text

  /** `RichText` with its `RichTextData`. */
  class RichText {
    var paragraphs: seq<seq<Span>>

    /** Every paragraph keeps at least one span (the clean-up of an empty
        span list would panic). */
    ghost predicate Valid()
      reads this
    {
      AllNonEmpty(paragraphs)
    }

    /** `RichTextData::default`: one paragraph holding one empty span. */
    constructor Default()
      ensures Valid() && paragraphs == [[Span([], 0)]]
      ensures ToString() == []
    {
      paragraphs := [[Span([], 0)]];
    }

    /** `RichText::new`. */
    constructor (initial: seq<seq<Span>>)
      ensures paragraphs == initial
    {
      paragraphs := initial;
    }

    /** `to_string`: the paragraphs' strings joined by line feeds. */
    function ToString(): seq<char>
      reads this
    {
      Join(Strings(paragraphs))
    }

    /** `position_after`: one byte on within the paragraph while that stays
        within its length; at the end of the last paragraph the position
        stays. `None` stands for the `todo!()` panic at the end of an
        earlier paragraph. */
    function PositionAfter(p: Position): (r: Option<Position>)
      reads this
      requires p.paragraph < |paragraphs|
      ensures p.offset + 1 <= Len(paragraphs[p.paragraph]) ==> r == Some(Position(p.paragraph, p.offset + 1))
      ensures p.offset + 1 > Len(paragraphs[p.paragraph]) && p.paragraph + 1 == |paragraphs| ==> r == Some(p)
      ensures p.offset + 1 > Len(paragraphs[p.paragraph]) && p.paragraph + 1 < |paragraphs| ==> r.None?
    {
      if p.offset + 1 > Len(paragraphs[p.paragraph]) then
        if |paragraphs| > p.paragraph + 1 then None else Some(p)
      else Some(Position(p.paragraph, p.offset + 1))
    }

    /** `end`: the last paragraph and its length. */
    function End(): (r: Position)
      reads this
      requires |paragraphs| > 0
      ensures r.paragraph == |paragraphs| - 1
      ensures r.offset == |Concat(paragraphs[|paragraphs| - 1])|
    {
      LenIsLengthOfConcat(paragraphs[|paragraphs| - 1]);
      Position(|paragraphs| - 1, Len(paragraphs[|paragraphs| - 1]))
    }

    /** Within a paragraph, stepping after and then before (or before and
        then after) returns to the start, and stepping after never moves
        backwards; at the end of the text `position_after` stays put. */
    lemma StepsAreInverse(p: Position)
      requires p.paragraph < |paragraphs|
      ensures p.offset + 1 <= Len(paragraphs[p.paragraph]) ==>
        PositionAfter(p).Some? && PositionBefore(PositionAfter(p).value) == Some(p)
      ensures 0 < p.offset <= Len(paragraphs[p.paragraph]) ==>
        PositionBefore(p).Some? && PositionAfter(PositionBefore(p).value) == Some(p)
      ensures PositionAfter(p).Some? ==> PosLe(p, PositionAfter(p).value)
      ensures p == End() ==> PositionAfter(p) == Some(p)
    {
      LenIsLengthOfConcat(paragraphs[p.paragraph]);
    }

    /** `for_each_in_range_mut`: edits every existing paragraph from the
        range's first to its last, collecting the paragraphs the closure
        asks to remove (for a removal, those strictly inside the range),
        and then removes them from the last to the first. */
    method ForEachInRangeMut(s: Position, e: Position, edit: ParagraphEdit)
      requires Valid()
      modifies this
      ensures Valid()
      ensures paragraphs == ForEachResult(old(paragraphs), s, e, edit)
    {
      ghost var before := paragraphs;
      var ps, toRemove := EditLoop(s, e, edit);
      paragraphs := ps;
      RemoveParagraphs(toRemove, InnerLow(s));
      DropDone(before, ps, toRemove, paragraphs, s, e, edit);
    }

    /** The edit loop of `for_each_in_range_mut`: each existing paragraph
        from the range's first to its last gets its part of the range, and
        the indices the closure asks to remove are collected in order. */
    method EditLoop(s: Position, e: Position, edit: ParagraphEdit) returns (ps: seq<seq<Span>>, toRemove: seq<nat>)
      requires Valid()
      ensures ps == EditedParagraphs(paragraphs, s, e, edit)
      ensures toRemove == Removals(|paragraphs|, e.paragraph + 1, s, e, edit)
      ensures forall j | 0 <= j < |toRemove| :: toRemove[j] == InnerLow(s) + j
      ensures toRemove != [] ==> InnerLow(s) + |toRemove| <= |ps|
    {
      var before := paragraphs;
      ps := before;
      toRemove := [];
      var k := s.paragraph;
      while k <= e.paragraph
        invariant s.paragraph <= k <= e.paragraph + 1 || k == s.paragraph
        invariant EachProgress(before, ps, toRemove, k, s, e, edit)
        decreases e.paragraph + 1 - k
      {
        ps, toRemove := EachStep(before, ps, toRemove, k, s, e, edit);
        k := k + 1;
      }
      EachDone(before, ps, toRemove, k, s, e, edit);
    }

    /** The removal loop of `for_each_in_range_mut`: removes the listed
        paragraphs, which are consecutive, from the last to the first. */
    method RemoveParagraphs(toRemove: seq<nat>, ghost lo: nat)
      requires forall j | 0 <= j < |toRemove| :: toRemove[j] == lo + j
      requires toRemove != [] ==> lo + |toRemove| <= |paragraphs|
      modifies this
      ensures paragraphs == if toRemove == [] then old(paragraphs)
                            else old(paragraphs)[..lo] + old(paragraphs)[lo + |toRemove|..]
    {
      ghost var before := paragraphs;
      ghost var hi := lo + |toRemove|;
      var j := |toRemove|;
      while j > 0
        invariant 0 <= j <= |toRemove|
        invariant paragraphs == if toRemove == [] then before else before[..lo + j] + before[hi..]
      {
        j := j - 1;
        var idx := toRemove[j];
        DropLast(before[..lo + j + 1], before[hi..], idx);
        paragraphs := paragraphs[..idx] + paragraphs[idx + 1..];
      }
      assert toRemove != [] ==> before[..lo + j] == before[..lo];
    }

    /** `remove_range(s..e)`, which asserts `s <= e`. Across paragraphs,
        the paragraph after the first must exist once the inner ones are
        gone, that is the last paragraph must exist. */
    method RemoveRange(s: Position, e: Position)
      requires Valid() && PosLe(s, e) && (s.paragraph != e.paragraph ==> e.paragraph < |paragraphs|)
      modifies this
      ensures Valid()
      ensures paragraphs == RemoveRangeResult(old(paragraphs), s, e)
      ensures Strings(paragraphs) == RemovedStrings(Strings(old(paragraphs)), s, e)
    {
      ghost var before := paragraphs;
      ForEachInRangeMut(s, e, RemoveText);
      if s.paragraph != e.paragraph {
        DropInnerLength(EditedParagraphs(before, s, e, RemoveText), s, e);
        var p, ps := s.paragraph, paragraphs;
        var merge := ps[p + 1];
        var dropped := ps[..p + 1] + ps[p + 2..];
        paragraphs := dropped[p := dropped[p] + merge];
        MergeNextNonEmpty(ps, p);
      }
      RemoveRangeStrings(before, s, e);
    }

    /** `insert_str(location, v)`. */
    method InsertStr(location: Position, v: seq<char>)
      requires Valid()
      modifies this
      ensures Valid()
      ensures paragraphs == InsertStrResult(old(paragraphs), location, v)
      ensures var ss := Strings(old(paragraphs));
        Strings(paragraphs) == if location.paragraph < |ss|
                               then ss[location.paragraph := Inserted(ss[location.paragraph], location.offset, v)]
                               else ss
    {
      ghost var before := paragraphs;
      ForEachInRangeMut(location, location, InsertText(v));
      InsertStrStrings(before, location, v);
    }
  }

  /** The indices the closure asked to remove once the loop has visited
      the paragraphs before `k`. */
  function Removals(n: nat, k: nat, s: Position, e: Position, edit: ParagraphEdit): seq<nat>
  {
    if edit.RemoveText? then Range(InnerLow(s), Max(InnerLow(s), Min(Min(k, e.paragraph), n))) else []
  }

  lemma RemovalsStep(n: nat, k: nat, s: Position, e: Position, edit: ParagraphEdit)
    requires s.paragraph <= k <= e.paragraph
    ensures Removals(n, k + 1, s, e, edit)
      == Removals(n, k, s, e, edit) + (if edit.RemoveText? && k != s.paragraph && k != e.paragraph && k < n then [k] else [])
  {
  }

  lemma RemovalsDone(n: nat, k: nat, s: Position, e: Position, edit: ParagraphEdit)
    requires k > e.paragraph
    ensures var r := Removals(n, k, s, e, edit);
      (r == [] <==> !(edit.RemoveText? && InnerLow(s) < InnerHigh(n, s, e)))
      && (r != [] ==> InnerLow(s) + |r| == InnerHigh(n, s, e) && forall j | 0 <= j < |r| :: r[j] == InnerLow(s) + j)
  {
  }

  /** The edit loop has visited the paragraphs before `k` and collected
      the indices to remove among them. */
  ghost predicate EachProgress(before: seq<seq<Span>>, ps: seq<seq<Span>>, toRemove: seq<nat>, k: nat,
                               s: Position, e: Position, edit: ParagraphEdit)
  {
    && AllNonEmpty(before)
    && |ps| == |before|
    && (forall j | 0 <= j < |ps| :: ps[j] == if j < k then VisitedParagraph(before[j], j, s, e, edit) else before[j])
    && toRemove == Removals(|before|, k, s, e, edit)
  }

  /** One round of the edit loop: the paragraph at `k`, when it exists, is
      visited, and its index is collected when the closure asks to remove it. */
  method EachStep(before: seq<seq<Span>>, ps: seq<seq<Span>>, toRemove: seq<nat>, k: nat,
                  s: Position, e: Position, edit: ParagraphEdit)
    returns (ps': seq<seq<Span>>, toRemove': seq<nat>)
    requires EachProgress(before, ps, toRemove, k, s, e, edit) && s.paragraph <= k <= e.paragraph
    ensures EachProgress(before, ps', toRemove', k + 1, s, e, edit)
  {
    ps', toRemove' := ps, toRemove;
    if k < |ps| {
      EachVisit(before, ps, toRemove, k, s, e, edit);
      ps' := ps[k := VisitedParagraph(ps[k], k, s, e, edit)];
      if edit.RemoveText? && k != s.paragraph && k != e.paragraph {
        toRemove' := toRemove + [k];
      }
    } else {
      EachMissing(before, ps, toRemove, k, s, e, edit);
    }
  }

  lemma EachVisit(before: seq<seq<Span>>, ps: seq<seq<Span>>, toRemove: seq<nat>, k: nat,
                  s: Position, e: Position, edit: ParagraphEdit)
    requires EachProgress(before, ps, toRemove, k, s, e, edit) && k < |ps| && s.paragraph <= k <= e.paragraph
    ensures |ps[k]| > 0
    ensures var ps' := ps[k := VisitedParagraph(ps[k], k, s, e, edit)];
      if edit.RemoveText? && k != s.paragraph && k != e.paragraph
      then EachProgress(before, ps', toRemove + [k], k + 1, s, e, edit)
      else EachProgress(before, ps', toRemove, k + 1, s, e, edit)
  {
    RemovalsStep(|before|, k, s, e, edit);
    assert toRemove + [] == toRemove;
  }

  lemma EachMissing(before: seq<seq<Span>>, ps: seq<seq<Span>>, toRemove: seq<nat>, k: nat,
                    s: Position, e: Position, edit: ParagraphEdit)
    requires EachProgress(before, ps, toRemove, k, s, e, edit) && |ps| <= k && s.paragraph <= k <= e.paragraph
    ensures EachProgress(before, ps, toRemove, k + 1, s, e, edit)
  {
    RemovalsStep(|before|, k, s, e, edit);
  }

  lemma EachDone(before: seq<seq<Span>>, ps: seq<seq<Span>>, toRemove: seq<nat>, k: nat,
                 s: Position, e: Position, edit: ParagraphEdit)
    requires EachProgress(before, ps, toRemove, k, s, e, edit) && k > e.paragraph
    ensures ps == EditedParagraphs(before, s, e, edit)
    ensures toRemove == Removals(|before|, e.paragraph + 1, s, e, edit)
    ensures forall j | 0 <= j < |toRemove| :: toRemove[j] == InnerLow(s) + j
    ensures toRemove != [] ==> InnerLow(s) + |toRemove| <= |ps|
  {
    RemovalsDone(|before|, k, s, e, edit);
  }

  lemma DropDone(before: seq<seq<Span>>, edited: seq<seq<Span>>, toRemove: seq<nat>, result: seq<seq<Span>>,
                 s: Position, e: Position, edit: ParagraphEdit)
    requires AllNonEmpty(before) && edited == EditedParagraphs(before, s, e, edit)
    requires toRemove == Removals(|before|, e.paragraph + 1, s, e, edit)
    requires result == if toRemove == [] then edited else edited[..InnerLow(s)] + edited[InnerLow(s) + |toRemove|..]
    ensures result == ForEachResult(before, s, e, edit)
  {
    RemovalsDone(|before|, e.paragraph + 1, s, e, edit);
  }

  /** Removing the last element of the front part of a split sequence. */
  lemma DropLast<T>(a: seq<T>, b: seq<T>, i: nat)
    requires i + 1 == |a|
    ensures (a + b)[..i] + (a + b)[i + 1..] == a[..i] + b
  {
    assert (a + b)[..i] == a[..i];
    assert (a + b)[i + 1..] == b;
  }

  /** Each paragraph is a line of `to_string`: splitting the joined string
      at its line feeds gives the paragraphs' strings back when none of them
      holds a line feed. */
  function Split(t: seq<char>): (r: seq<seq<char>>)
    ensures |r| > 0
  {
    if t == [] then [[]]
    else
      var rest := Split(t[1..]);
      if t[0] == '\n' then [[]] + rest else [[t[0]] + rest[0]] + rest[1..]
  }

  lemma {:induction false} SplitPrefix(t: seq<char>, rest: seq<char>)
    requires '\n' !in t
    ensures Split(t + rest) == [t + Split(rest)[0]] + Split(rest)[1..]
  {
    if t != [] {
      var u := t + rest;
      assert t[0] in t;
      assert u[0] == t[0] && u[1..] == t[1..] + rest;
      assert '\n' !in t[1..] by {
        forall c | c in t[1..] ensures c in t { }
      }
      SplitPrefix(t[1..], rest);
      var inner := Split(u[1..]);
      assert inner == [t[1..] + Split(rest)[0]] + Split(rest)[1..];
      assert Split(u) == [[t[0]] + inner[0]] + inner[1..];
      assert [t[0]] + (t[1..] + Split(rest)[0]) == t + Split(rest)[0];
    } else {
      var r := Split(rest);
      assert t + rest == rest && t + r[0] == r[0];
      assert [r[0]] + r[1..] == r;
    }
  }

  lemma {:induction false} SplitJoin(ss: seq<seq<char>>)
    requires |ss| > 0
    requires forall k | 0 <= k < |ss| :: '\n' !in ss[k]
    ensures Split(Join(ss)) == ss
  {
    if |ss| == 1 {
      SplitPrefix(ss[0], []);
      assert ss[0] + [] == ss[0];
    } else {
      SplitJoin(ss[1..]);
      var rest := "\n" + Join(ss[1..]);
      assert Join(ss) == ss[0] + rest;
      SplitPrefix(ss[0], rest);
      assert rest[1..] == Join(ss[1..]);
      assert Split(rest) == [[]] + ss[1..];
      assert ss[0] + [] == ss[0];
      assert ss == [ss[0]] + ss[1..];
    }
  }

  // ---------------------------------------------------------------------
  // The tests of text/src/rich.rs

  /** Paragraphs made with `Text::span` from strings, in the default style. */
  function SpanParagraphs(ts: seq<seq<char>>): (r: seq<seq<Span>>)
    ensures AllNonEmpty(r) && Strings(r) == ts
  {
    var r := seq(|ts|, k requires 0 <= k < |ts| => [Span(ts[k], 0)]);
    assert forall k | 0 <= k < |ts| :: Concat(r[k]) == ts[k] by {
      forall k | 0 <= k < |ts| ensures Concat(r[k]) == ts[k] {
        assert r[k][1..] == [];
      }
    }
    r
  }

  method RemoveRangeOneParagraphStart() returns (r: seq<char>)
    ensures r == "123"
  {
    var t := new RichText(SpanParagraphs(["a123"]));
    t.RemoveRange(Position(0, 0), Position(0, 1));
    assert Removed("a123", 0, 1) == "123";
    assert Strings(t.paragraphs) == ["123"];
    r := t.ToString();
  }

  method RemoveRangeOneParagraphEnd() returns (r: seq<char>)
    ensures r == "123"
  {
    var t := new RichText(SpanParagraphs(["123a"]));
    t.RemoveRange(Position(0, 3), Position(0, 4));
    assert Removed("123a", 3, 4) == "123";
    assert Strings(t.paragraphs) == ["123"];
    r := t.ToString();
  }

  method RemoveRangeOneParagraphInner() returns (r: seq<char>)
    ensures r == "123"
  {
    var t := new RichText(SpanParagraphs(["1a23"]));
    t.RemoveRange(Position(0, 1), Position(0, 2));
    assert Removed("1a23", 1, 2) == "123";
    assert Strings(t.paragraphs) == ["123"];
    r := t.ToString();
  }

  method RemoveRangeCrossBoundaries() returns (r: seq<char>)
    ensures r == "123456"
  {
    var t := new RichText(SpanParagraphs(["123a", "b456"]));
    t.RemoveRange(Position(0, 3), Position(1, 1));
    assert "123a"[..3] + "b456"[1..] == "123456";
    assert Strings(t.paragraphs) == ["123456"];
    r := t.ToString();
  }

  method RemoveRangeCrossMultipleBoundaries() returns (r: seq<char>)
    ensures r == "123456"
  {
    var t := new RichText(SpanParagraphs(["123a", "bc", "d456"]));
    t.RemoveRange(Position(0, 3), Position(2, 1));
    assert "123a"[..3] + "d456"[1..] == "123456";
    assert Strings(t.paragraphs) == ["123456"];
    r := t.ToString();
  }

  /** Inserting into the second paragraph leaves the first alone. */
  method InsertIntoSecondParagraph() returns (r: seq<char>)
    ensures r == "ab\ncxd"
  {
    var t := new RichText(SpanParagraphs(["ab", "cd"]));
    t.InsertStr(Position(1, 1), "x");
    assert Inserted("cd", 1, "x") == "cxd";
    assert Strings(t.paragraphs) == ["ab", "cxd"];
    assert ["ab", "cxd"][1..] == ["cxd"];
    assert Join(["ab", "cxd"]) == "ab" + "\n" + "cxd";
    r := t.ToString();
  }
}
