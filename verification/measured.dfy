/** The second stage of text wrapping (text/src/wrap/measured.rs): the
    tokens are gathered into groups that wrapping keeps together (a word
    with the punctuation after it, a stretch of whitespace) and the ends of
    line. */
module GooeyMeasured {
  import opened Common
  import opened GooeyText
  import Tok = GooeyTokenizer

  /** `ParserStatus`. */
  datatype ParserStatus = LineStart | InWord | TrailingPunctuation | Whitespace

  /** `SpanGroup`. */
  datatype SpanGroup =
    | Spans(spans: seq<Tok.PreparedSpan>)
    | Whitespace(spans: seq<Tok.PreparedSpan>)
    | EndOfLine(metrics: nat)

  /** `MeasuredTextInfo`. */
  datatype MeasuredTextInfo = Groups(groups: seq<SpanGroup>) | NoText(metrics: nat)

  /** What `TextMeasureState` holds, as a value. */
  datatype Measure = Measure(current: Option<SpanGroup>, status: ParserStatus, groups: seq<SpanGroup>,
                             noText: Option<nat>)

  /** The state `MeasuredText::new` starts from. */
  const Initial := Measure(None, LineStart, [], None)

  /** The groups with the current one committed. */
  function Committed(m: Measure): seq<SpanGroup>
  {
    if m.current.Some? then m.groups + [m.current.value] else m.groups
  }

  /** `commit_current_group`. */
  function Commit(m: Measure): (r: Measure)
    ensures r.current.None? && r.groups == Committed(m) && Committed(r) == Committed(m)
  {
    m.(groups := Committed(m), current := None)
  }

  /** `push_visual_span`: joins a current word group, or starts one. */
  function WithVisual(m: Measure, span: Tok.PreparedSpan): Measure
  {
    if m.current.Some? && m.current.value.Spans? then m.(current := Some(Spans(m.current.value.spans + [span])))
    else Commit(m).(current := Some(Spans([span])))
  }

  /** `push_whitespace_span`: joins a current whitespace group, or starts
      one. */
  function WithWhitespace(m: Measure, span: Tok.PreparedSpan): Measure
  {
    if m.current.Some? && m.current.value.Whitespace? then m.(current := Some(SpanGroup.Whitespace(m.current.value.spans + [span])))
    else Commit(m).(current := Some(SpanGroup.Whitespace([span])))
  }

  /** `push_token`, with a word that follows whitespace or punctuation
      leaving the state in a word (see `PushedAsWritten`). */
  function Pushed(m: Measure, t: Tok.Token): Measure
  {
    match t
    case EndOfLine(v) => Measure(None, LineStart, Committed(m) + [EndOfLine(v)], m.noText)
    case NoText(v) => m.(noText := v)
    case Characters(span) =>
      if m.status == LineStart || m.status == InWord then WithVisual(m, span).(status := InWord)
      else WithVisual(Commit(m), span).(status := InWord)
    case Punctuation(span) =>
      if m.status == TrailingPunctuation then WithVisual(m, span)
      else if m.status == LineStart || m.status == InWord then WithVisual(m, span).(status := TrailingPunctuation)
      else WithVisual(Commit(m), span).(status := TrailingPunctuation)
    case Whitespace(span) =>
      if m.status == ParserStatus.Whitespace then WithWhitespace(m, span)
      else WithWhitespace(Commit(m), span).(status := ParserStatus.Whitespace)
  }

  /** `push_token` as written: a word that follows whitespace or
      punctuation leaves the state as if after punctuation. */
  function PushedAsWritten(m: Measure, t: Tok.Token): Measure
  {
    if t.Characters? && (m.status == ParserStatus.Whitespace || m.status == TrailingPunctuation)
    then Pushed(m, t).(status := TrailingPunctuation)
    else Pushed(m, t)
  }

  /** The state after pushing every token in turn. */
  function MeasureAll(ts: seq<Tok.Token>): Measure
  {
    if ts == [] then Initial else Pushed(MeasureAll(ts[..|ts| - 1]), ts[|ts| - 1])
  }

  function MeasureAllAsWritten(ts: seq<Tok.Token>): Measure
  {
    if ts == [] then Initial else PushedAsWritten(MeasureAllAsWritten(ts[..|ts| - 1]), ts[|ts| - 1])
  }

  /** The end of `MeasuredText::new`: `NoText` once a `NoText` token
      brought metrics, otherwise the groups with `finish`'s commit. */
  function Info(m: Measure): MeasuredTextInfo
  {
    if m.noText.Some? then NoText(m.noText.value) else Groups(Committed(m))
  }

  /** `MeasuredText::new`. */
  function MeasuredText(spans: seq<Span>): MeasuredTextInfo
  {
    Info(MeasureAll(Tok.PreparedTokens(spans)))
  }

  // ---------------------------------------------------------------------
  // What the groups keep

  /** A span or an end of line, in reading order. */
  datatype Piece = SpanPiece(span: Tok.PreparedSpan) | LineEnd(metrics: nat)

  function SpanPieces(ss: seq<Tok.PreparedSpan>): (r: seq<Piece>)
    ensures |r| == |ss|
    ensures forall i | 0 <= i < |ss| :: r[i] == SpanPiece(ss[i])
  {
    seq(|ss|, i requires 0 <= i < |ss| => SpanPiece(ss[i]))
  }

  /** The pieces of a group: its spans, or its end of line. */
  function GroupPieces(g: SpanGroup): seq<Piece>
  {
    match g
    case Spans(ss) => SpanPieces(ss)
    case Whitespace(ss) => SpanPieces(ss)
    case EndOfLine(v) => [LineEnd(v)]
  }

  function Pieces(gs: seq<SpanGroup>): seq<Piece>
  {
    if gs == [] then [] else Pieces(gs[..|gs| - 1]) + GroupPieces(gs[|gs| - 1])
  }

  /** The pieces of the tokens: their spans and ends of line. */
  function TokenPieces(ts: seq<Tok.Token>): seq<Piece>
  {
    if ts == [] then []
    else
      var t := ts[|ts| - 1];
      TokenPieces(ts[..|ts| - 1]) + (if Tok.IsText(t) then [SpanPiece(t.span)] else if t.EndOfLine? then [LineEnd(t.metrics)] else [])
  }

  lemma PiecesSnoc(gs: seq<SpanGroup>, g: SpanGroup)
    ensures Pieces(gs + [g]) == Pieces(gs) + GroupPieces(g)
  {
    assert (gs + [g])[..|gs|] == gs;
  }

  lemma SpanPiecesSnoc(ss: seq<Tok.PreparedSpan>, span: Tok.PreparedSpan)
    ensures SpanPieces(ss + [span]) == SpanPieces(ss) + [SpanPiece(span)]
  {
    var l, r := SpanPieces(ss + [span]), SpanPieces(ss) + [SpanPiece(span)];
    assert |l| == |r|;
    forall i | 0 <= i < |l|
      ensures l[i] == r[i]
    {
      assert (ss + [span])[i] == if i < |ss| then ss[i] else span;
    }
  }

  /** A group of spans of either kind. */
  function GroupOf(ws: bool, ss: seq<Tok.PreparedSpan>): (r: SpanGroup)
    ensures !r.EndOfLine? && r.spans == ss && r.Whitespace? == ws
  {
    if ws then SpanGroup.Whitespace(ss) else Spans(ss)
  }

  /** Adding a span to the last group adds its piece at the end. */
  lemma PiecesExtendLast(gs: seq<SpanGroup>, ws: bool, ss: seq<Tok.PreparedSpan>, span: Tok.PreparedSpan)
    ensures Pieces(gs + [GroupOf(ws, ss + [span])]) == Pieces(gs + [GroupOf(ws, ss)]) + [SpanPiece(span)]
  {
    PiecesSnoc(gs, GroupOf(ws, ss));
    PiecesSnoc(gs, GroupOf(ws, ss + [span]));
    assert GroupPieces(GroupOf(ws, ss)) == SpanPieces(ss);
    assert GroupPieces(GroupOf(ws, ss + [span])) == SpanPieces(ss + [span]);
    SpanPiecesSnoc(ss, span);
    Common.AppendAssoc(Pieces(gs), SpanPieces(ss), [SpanPiece(span)]);
  }

  /** A group is never empty, unless it is an end of line. */
  predicate Filled(g: SpanGroup)
  {
    g.EndOfLine? || g.spans != []
  }

  /** No group is empty and no two whitespace groups are neighbours. */
  predicate WellGrouped(gs: seq<SpanGroup>)
  {
    && (forall i | 0 <= i < |gs| :: Filled(gs[i]))
    && (forall i | 0 <= i < |gs| - 1 :: !(gs[i].Whitespace? && gs[i + 1].Whitespace?))
  }

  lemma WellGroupedSnoc(gs: seq<SpanGroup>, g: SpanGroup)
    requires WellGrouped(gs) && Filled(g)
    requires gs != [] && g.Whitespace? ==> !gs[|gs| - 1].Whitespace?
    ensures WellGrouped(gs + [g])
  {
    assert forall i | 0 <= i < |gs| :: (gs + [g])[i] == gs[i];
  }

  lemma WellGroupedPrefix(gs: seq<SpanGroup>, g: SpanGroup)
    requires WellGrouped(gs + [g])
    ensures WellGrouped(gs) && Filled(g)
    ensures gs != [] && g.Whitespace? ==> !gs[|gs| - 1].Whitespace?
  {
    assert forall i | 0 <= i < |gs| :: (gs + [g])[i] == gs[i];
    assert (gs + [g])[|gs|] == g;
  }

  /** The groups so far are well grouped, the current group is never an
      end of line, a whitespace group is current exactly while the status
      is whitespace, and without a current group the last group (if any)
      is an end of line. */
  ghost predicate Inv(m: Measure)
  {
    && WellGrouped(Committed(m))
    && (m.current.Some? ==> !m.current.value.EndOfLine?)
    && (m.current.Some? && m.current.value.Whitespace? <==> m.status == ParserStatus.Whitespace)
    && (m.current.None? ==> m.groups == [] || m.groups[|m.groups| - 1].EndOfLine?)
  }

  /** Adding a span: to the current group when it is of the same kind,
      otherwise in a new group after the committed ones. */
  lemma AddKeepsGrouping(m: Measure, span: Tok.PreparedSpan, ws: bool)
    requires WellGrouped(Committed(m)) && (m.current.Some? ==> !m.current.value.EndOfLine?)
    requires ws && !(m.current.Some? && m.current.value.Whitespace?) && Committed(m) != [] ==>
      !Committed(m)[|Committed(m)| - 1].Whitespace?
    ensures var r := if ws then WithWhitespace(m, span) else WithVisual(m, span);
      WellGrouped(Committed(r)) && r.current.Some? && r.current.value.Whitespace? == ws
  {
    var r := if ws then WithWhitespace(m, span) else WithVisual(m, span);
    if m.current.Some? && m.current.value.Whitespace? == ws {
      var g := m.current.value;
      WellGroupedPrefix(m.groups, g);
      WellGroupedSnoc(m.groups, r.current.value);
    } else {
      WellGroupedSnoc(Committed(m), r.current.value);
    }
  }

  lemma PushedKeepsInv(m: Measure, t: Tok.Token)
    requires Inv(m)
    ensures Inv(Pushed(m, t))
  {
    match t
    case EndOfLine(v) => WellGroupedSnoc(Committed(m), EndOfLine(v));
    case NoText(_) =>
    case Characters(span) => AddKeepsGrouping(if m.status == LineStart || m.status == InWord then m else Commit(m), span, false);
    case Punctuation(span) => AddKeepsGrouping(if m.status != ParserStatus.Whitespace then m else Commit(m), span, false);
    case Whitespace(span) => AddKeepsGrouping(if m.status == ParserStatus.Whitespace then m else Commit(m), span, true);
  }

  /** Reading the groups back gives the tokens' spans and ends of line in
      their order: nothing is lost, duplicated or moved by grouping. */
  lemma PushedKeepsPieces(m: Measure, t: Tok.Token)
    ensures Pieces(Committed(Pushed(m, t)))
      == Pieces(Committed(m)) + (if Tok.IsText(t) then [SpanPiece(t.span)] else if t.EndOfLine? then [LineEnd(t.metrics)] else [])
  {
    match t
    case EndOfLine(v) =>
      PiecesSnoc(Committed(m), EndOfLine(v));
    case NoText(_) =>
    case Characters(span) =>
      var n := if m.status == LineStart || m.status == InWord then m else Commit(m);
      assert Committed(Pushed(m, t)) == Committed(WithVisual(n, span));
      AddKeepsPieces(n, span, false);
    case Punctuation(span) =>
      var n := if m.status != ParserStatus.Whitespace then m else Commit(m);
      assert Committed(Pushed(m, t)) == Committed(WithVisual(n, span));
      AddKeepsPieces(n, span, false);
    case Whitespace(span) =>
      var n := if m.status == ParserStatus.Whitespace then m else Commit(m);
      assert Committed(Pushed(m, t)) == Committed(WithWhitespace(n, span));
      AddKeepsPieces(n, span, true);
  }

  lemma AddKeepsPieces(m: Measure, span: Tok.PreparedSpan, ws: bool)
    ensures var r := if ws then WithWhitespace(m, span) else WithVisual(m, span);
      Pieces(Committed(r)) == Pieces(Committed(m)) + [SpanPiece(span)]
  {
    var joins := m.current.Some? && m.current.value.Whitespace? == ws && !m.current.value.EndOfLine?;
    var r := if ws then WithWhitespace(m, span) else WithVisual(m, span);
    if joins {
      var ss := m.current.value.spans;
      assert m.current.value == GroupOf(ws, ss);
      assert Committed(r) == m.groups + [GroupOf(ws, ss + [span])];
      PiecesExtendLast(m.groups, ws, ss, span);
    } else {
      var g := GroupOf(ws, [span]);
      assert Committed(r) == Committed(m) + [g];
      PiecesSnoc(Committed(m), g);
    }
  }

  /** After any tokens the invariant holds and the groups read back as the
      tokens' pieces. */
  lemma {:induction false} MeasureAllKeepsInv(ts: seq<Tok.Token>)
    ensures Inv(MeasureAll(ts))
  {
    if ts != [] {
      MeasureAllKeepsInv(ts[..|ts| - 1]);
      PushedKeepsInv(MeasureAll(ts[..|ts| - 1]), ts[|ts| - 1]);
    }
  }

  lemma {:induction false} MeasureAllKeepsPieces(ts: seq<Tok.Token>)
    ensures Pieces(Committed(MeasureAll(ts))) == TokenPieces(ts)
  {
    if ts != [] {
      MeasureAllKeepsPieces(ts[..|ts| - 1]);
      PushedKeepsPieces(MeasureAll(ts[..|ts| - 1]), ts[|ts| - 1]);
    }
  }

  /** Only a `NoText` token brings the metrics that make the result
      `NoText`. */
  lemma {:induction false} MeasureAllWithoutNoText(ts: seq<Tok.Token>)
    requires forall i | 0 <= i < |ts| :: !ts[i].NoText?
    ensures MeasureAll(ts).noText.None?
  {
    if ts != [] {
      MeasureAllWithoutNoText(ts[..|ts| - 1]);
    }
  }

  /** The tokens of `prepare_spans` never hold a `NoText` unless it is the
      only one. */
  lemma {:induction false} AllTokensHaveNoNoText(spans: seq<Span>)
    ensures forall i | 0 <= i < |Tok.AllTokens(spans)| :: !Tok.AllTokens(spans)[i].NoText?
  {
    if spans != [] {
      AllTokensHaveNoNoText(spans[..|spans| - 1]);
      Tok.SpanTokensAreMaximalRuns(spans[|spans| - 1]);
    }
  }

  /** The text a piece stands for. */
  function PieceChars(p: Piece): seq<char>
  {
    match p
    case SpanPiece(s) => s.text
    case LineEnd(_) => "\n"
  }

  function PieceText(ps: seq<Piece>): seq<char>
  {
    if ps == [] then [] else PieceText(ps[..|ps| - 1]) + PieceChars(ps[|ps| - 1])
  }

  lemma {:induction false} PieceTextOfTokens(ts: seq<Tok.Token>)
    requires forall i | 0 <= i < |ts| :: !ts[i].NoText?
    ensures PieceText(TokenPieces(ts)) == Tok.Rendered(ts)
  {
    if ts != [] {
      var p := ts[..|ts| - 1];
      PieceTextOfTokens(p);
      var t := ts[|ts| - 1];
      var extra := if Tok.IsText(t) then [SpanPiece(t.span)] else if t.EndOfLine? then [LineEnd(t.metrics)] else [];
      assert TokenPieces(ts) == TokenPieces(p) + extra;
      PieceTextAppend(TokenPieces(p), extra);
      if extra != [] {
        assert extra[..0] == [];
      }
    }
  }

  lemma PieceTextSnoc(ps: seq<Piece>, p: Piece)
    ensures PieceText(ps + [p]) == PieceText(ps) + PieceChars(p)
  {
    assert (ps + [p])[..|ps|] == ps;
  }

  lemma {:induction false} PieceTextAppend(a: seq<Piece>, b: seq<Piece>)
    ensures PieceText(a + b) == PieceText(a) + PieceText(b)
    decreases |b|
  {
    if b == [] {
      assert a + b == a;
    } else {
      var init, last := b[..|b| - 1], b[|b| - 1];
      assert b == init + [last];
      PieceTextAppend(a, init);
      AppendAssoc(a, init, [last]);
      PieceTextSnoc(a + init, last);
      PieceTextSnoc(init, last);
      AppendAssoc(PieceText(a), PieceText(init), PieceChars(last));
    }
  }

  /** End to end: a text with something to show measures to groups that
      keep no empty group and no two neighbouring whitespace groups, and
      that read back as the text without its control characters other than
      line feeds; a text with nothing to show measures to `NoText` with
      the last span's metrics (or to no groups at all without spans). */
  lemma MeasuredTextReadsBack(spans: seq<Span>)
    ensures Tok.KeptAll(spans) != [] ==>
      && MeasuredText(spans).Groups?
      && var gs := MeasuredText(spans).groups;
         && PieceText(Pieces(gs)) == Tok.KeptAll(spans)
         && WellGrouped(gs)
    ensures Tok.KeptAll(spans) == [] && spans != [] ==>
      MeasuredText(spans) == NoText(spans[|spans| - 1].style)
    ensures spans == [] ==> MeasuredText(spans) == Groups([])
  {
    var ts := Tok.PreparedTokens(spans);
    Tok.PreparedTokensRender(spans);
    if Tok.KeptAll(spans) != [] {
      Tok.AllTokensRender(spans);
      AllTokensHaveNoNoText(spans);
      MeasuredTokensReadBack(ts);
    } else {
      assert ts[..0] == [];
    }
  }

  /** Tokens without a `NoText` measure to well-grouped groups that read
      back as the tokens. */
  lemma MeasuredTokensReadBack(ts: seq<Tok.Token>)
    requires forall i | 0 <= i < |ts| :: !ts[i].NoText?
    ensures Info(MeasureAll(ts)) == Groups(Committed(MeasureAll(ts)))
    ensures WellGrouped(Committed(MeasureAll(ts)))
    ensures PieceText(Pieces(Committed(MeasureAll(ts)))) == Tok.Rendered(ts)
  {
    MeasureAllKeepsInv(ts);
    MeasureAllKeepsPieces(ts);
    MeasureAllWithoutNoText(ts);
    PieceTextOfTokens(ts);
  }

  // ---------------------------------------------------------------------
  // The finding: a word split across spans after whitespace

  /** A space, then one word written as two spans ("he" and "llo", say in
      two styles). */
  const SplitWord: seq<Tok.Token> :=
    [Tok.Token.Whitespace(Tok.PreparedSpan(0, " ")), Tok.Characters(Tok.PreparedSpan(0, "he")),
     Tok.Characters(Tok.PreparedSpan(1, "llo"))]

  lemma MeasureAllSnoc(p: seq<Tok.Token>, t: Tok.Token)
    ensures MeasureAll(p + [t]) == Pushed(MeasureAll(p), t)
  {
    assert (p + [t])[..|p|] == p;
  }

  lemma MeasureAllAsWrittenSnoc(p: seq<Tok.Token>, t: Tok.Token)
    ensures MeasureAllAsWritten(p + [t]) == PushedAsWritten(MeasureAllAsWritten(p), t)
  {
    assert (p + [t])[..|p|] == p;
  }

  /** One round of the measuring loop, on prefixes of the token list. */
  lemma MeasureAllStep(ts: seq<Tok.Token>, i: nat)
    requires i < |ts|
    ensures MeasureAll(ts[..i + 1]) == Pushed(MeasureAll(ts[..i]), ts[i])
  {
    assert ts[..i + 1][..i] == ts[..i];
  }

  /** As written, the word after the space is split into two groups, so
      wrapping may break it between its spans. */
  lemma AsWrittenSplitsWordAfterWhitespace()
    ensures Committed(MeasureAllAsWritten(SplitWord)) ==
      [SpanGroup.Whitespace([Tok.PreparedSpan(0, " ")]), Spans([Tok.PreparedSpan(0, "he")]), Spans([Tok.PreparedSpan(1, "llo")])]
  {
    var w, a, b := SplitWord[0], SplitWord[1], SplitWord[2];
    MeasureAllAsWrittenSnoc([], w);
    assert [] + [w] == [w];
    var m1 := Measure(Some(SpanGroup.Whitespace([w.span])), ParserStatus.Whitespace, [], None);
    assert MeasureAllAsWritten([w]) == m1;
    MeasureAllAsWrittenSnoc([w], a);
    var m2 := Measure(Some(Spans([a.span])), TrailingPunctuation, [SpanGroup.Whitespace([w.span])], None);
    assert MeasureAllAsWritten([w, a]) == m2 by { assert [w] + [a] == [w, a]; }
    MeasureAllAsWrittenSnoc([w, a], b);
    assert [w, a] + [b] == SplitWord;
    assert [SpanGroup.Whitespace([w.span]), Spans([a.span])] + [Spans([b.span])] == [SpanGroup.Whitespace([w.span]), Spans([a.span]), Spans([b.span])];
  }

  /** As written, the same two spans at the start of a line stay one group. */
  lemma AsWrittenKeepsWordAtLineStart()
    ensures Committed(MeasureAllAsWritten(SplitWord[1..])) == [Spans([Tok.PreparedSpan(0, "he"), Tok.PreparedSpan(1, "llo")])]
  {
    var a, b := SplitWord[1], SplitWord[2];
    assert a == Tok.Characters(Tok.PreparedSpan(0, "he"));
    MeasureAllAsWrittenSnoc([], a);
    assert [] + [a] == [a];
    assert MeasureAllAsWritten([a]) == Measure(Some(Spans([a.span])), InWord, [], None);
    MeasureAllAsWrittenSnoc([a], b);
    assert [a] + [b] == SplitWord[1..];
    assert [a.span] + [b.span] == [a.span, b.span];
  }

  /** Corrected, the word stays one group after the space too. */
  lemma CorrectedKeepsWordAfterWhitespace()
    ensures Committed(MeasureAll(SplitWord)) ==
      [SpanGroup.Whitespace([Tok.PreparedSpan(0, " ")]), Spans([Tok.PreparedSpan(0, "he"), Tok.PreparedSpan(1, "llo")])]
  {
    var w, a, b := SplitWord[0], SplitWord[1], SplitWord[2];
    MeasureAllSnoc([], w);
    assert [] + [w] == [w];
    assert MeasureAll([w]) == Measure(Some(SpanGroup.Whitespace([w.span])), ParserStatus.Whitespace, [], None);
    MeasureAllSnoc([w], a);
    var m2 := Measure(Some(Spans([a.span])), InWord, [SpanGroup.Whitespace([w.span])], None);
    assert MeasureAll([w, a]) == m2 by { assert [w] + [a] == [w, a]; }
    MeasureAllSnoc([w, a], b);
    assert [w, a] + [b] == SplitWord;
    assert [a.span] + [b.span] == [a.span, b.span];
  }

  /** With the status back in a word, neighbouring word tokens stay in one
      group wherever they are. */
  lemma {:induction false} WordsStayTogether(ts: seq<Tok.Token>, a: Tok.PreparedSpan, b: Tok.PreparedSpan)
    ensures var m := MeasureAll(ts + [Tok.Characters(a), Tok.Characters(b)]);
      m.current.Some? && m.current.value.Spans? && |m.current.value.spans| >= 2
      && m.current.value.spans[|m.current.value.spans| - 2..] == [a, b]
  {
    var s := ts + [Tok.Characters(a), Tok.Characters(b)];
    assert s[..|s| - 1] == ts + [Tok.Characters(a)];
    assert (ts + [Tok.Characters(a)])[..|ts|] == ts;
  }

  // ---------------------------------------------------------------------
  // The measuring state

  /** `TextMeasureState`. */
  class TextMeasureState {
    var current: Option<SpanGroup>
    var status: ParserStatus
    var groups: seq<SpanGroup>
    var noTextMetrics: Option<nat>

    function Value(): Measure
      reads this
    {
      Measure(current, status, groups, noTextMetrics)
    }

    constructor()
      ensures Value() == Initial
    {
      current := None;
      status := LineStart;
      groups := [];
      noTextMetrics := None;
    }

    /** `commit_current_group`. */
    method CommitCurrentGroup()
      modifies this
      ensures Value() == Commit(old(Value()))
    {
      if current.Some? {
        groups := groups + [current.value];
        current := None;
      }
    }

    /** `push_visual_span`. */
    method PushVisualSpan(span: Tok.PreparedSpan)
      modifies this
      ensures Value() == WithVisual(old(Value()), span)
    {
      if current.Some? && current.value.Spans? {
        current := Some(Spans(current.value.spans + [span]));
      } else {
        CommitCurrentGroup();
        current := Some(Spans([span]));
      }
    }

    /** `push_whitespace_span`. */
    method PushWhitespaceSpan(span: Tok.PreparedSpan)
      modifies this
      ensures Value() == WithWhitespace(old(Value()), span)
    {
      if current.Some? && current.value.Whitespace? {
        current := Some(SpanGroup.Whitespace(current.value.spans + [span]));
      } else {
        CommitCurrentGroup();
        current := Some(SpanGroup.Whitespace([span]));
      }
    }

    /** `push_token`, with the status after a word that follows whitespace
        or punctuation corrected to `InWord`. */
    method PushToken(t: Tok.Token)
      modifies this
      ensures Value() == Pushed(old(Value()), t)
    {
      match t {
        case EndOfLine(v) =>
          CommitCurrentGroup();
          groups := groups + [EndOfLine(v)];
          status := LineStart;
        case NoText(v) =>
          noTextMetrics := v;
        case Characters(span) =>
          if status == LineStart || status == InWord {
            PushVisualSpan(span);
            status := InWord;
          } else {
            CommitCurrentGroup();
            PushVisualSpan(span);
            status := InWord;
          }
        case Punctuation(span) =>
          if status == TrailingPunctuation {
            PushVisualSpan(span);
          } else if status == LineStart || status == InWord {
            PushVisualSpan(span);
            status := TrailingPunctuation;
          } else {
            CommitCurrentGroup();
            PushVisualSpan(span);
            status := TrailingPunctuation;
          }
        case Whitespace(span) =>
          if status == ParserStatus.Whitespace {
            PushWhitespaceSpan(span);
          } else {
            CommitCurrentGroup();
            PushWhitespaceSpan(span);
            status := ParserStatus.Whitespace;
          }
      }
    }

    /** `finish`: commits the current group and hands over the groups. */
    method Finish() returns (r: seq<SpanGroup>)
      modifies this
      ensures r == Committed(old(Value())) && Value() == Commit(old(Value()))
    {
      CommitCurrentGroup();
      r := groups;
    }
  }

  /** The loop of `MeasuredText::new`: pushes every token, then answers
      `NoText` when a `NoText` token brought metrics and the finished groups
      otherwise. */
  method MeasureTokens(ts: seq<Tok.Token>) returns (info: MeasuredTextInfo)
    ensures info == Info(MeasureAll(ts))
  {
    var state := new TextMeasureState();
    var i := 0;
    while i < |ts|
      invariant 0 <= i <= |ts|
      invariant state.Value() == MeasureAll(ts[..i])
    {
      MeasureAllStep(ts, i);
      state.PushToken(ts[i]);
      i := i + 1;
    }
    assert ts[..i] == ts;
    if state.noTextMetrics.Some? {
      info := NoText(state.noTextMetrics.value);
    } else {
      var gs := state.Finish();
      info := Groups(gs);
    }
  }

  /** `MeasuredText::new`: tokenizes the spans and measures the tokens. */
  method NewMeasuredText(spans: seq<Span>) returns (info: MeasuredTextInfo)
    ensures info == MeasuredText(spans)
  {
    var tokenizer := new Tok.Tokenizer();
    var ts := tokenizer.PrepareSpans(spans);
    assert ts == Tok.PreparedTokens(spans);
    info := MeasureTokens(ts);
  }
}
