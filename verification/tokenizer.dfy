/** The first stage of text wrapping (text/src/wrap/tokenizer.rs): the
    spans of a text are cut into tokens, each a maximal run of word
    characters, of ASCII punctuation or of whitespace within one span, with
    an end-of-line token for every line feed. Measuring is left to the
    renderer: a measured metric is represented by the style it was measured
    in, and a prepared span by its style and text. */
module GooeyTokenizer {
  import opened Common
  import opened GooeyText

  /** `TokenizerStatus`: the class of the run being collected. */
  datatype TokenizerStatus = AtSpanStart | InWord | TrailingPunctuation | Whitespace

  /** `PreparedSpan` without its measurements. */
  datatype PreparedSpan = PreparedSpan(style: nat, text: seq<char>)

  /** `Token`. */
  datatype Token =
    | EndOfLine(metrics: nat)
    | Characters(span: PreparedSpan)
    | Punctuation(span: PreparedSpan)
    | Whitespace(span: PreparedSpan)
    | NoText(lastMetrics: Option<nat>)

  predicate IsText(t: Token)
  {
    t.Characters? || t.Punctuation? || t.Whitespace?
  }

  /** The class of run a text token holds. */
  function KindOf(t: Token): (r: TokenizerStatus)
    requires IsText(t)
    ensures r != AtSpanStart
  {
    match t
    case Characters(_) => InWord
    case Punctuation(_) => TrailingPunctuation
    case Whitespace(_) => TokenizerStatus.Whitespace
  }

  /** `char::is_whitespace`: the characters with the Unicode White_Space
      property. */
  predicate IsWhitespace(c: char)
  {
    var n := c as int;
    (0x09 <= n <= 0x0D) || n == 0x20 || n == 0x85 || n == 0xA0 || n == 0x1680
    || (0x2000 <= n <= 0x200A) || n == 0x2028 || n == 0x2029 || n == 0x202F
    || n == 0x205F || n == 0x3000
  }

  /** `char::is_ascii_punctuation`. */
  predicate IsAsciiPunctuation(c: char)
  {
    var n := c as int;
    (0x21 <= n <= 0x2F) || (0x3A <= n <= 0x40) || (0x5B <= n <= 0x60) || (0x7B <= n <= 0x7E)
  }

  /** The class of a character that is not a control character. */
  function Classify(c: char): (r: TokenizerStatus)
    ensures r != AtSpanStart
  {
    if IsWhitespace(c) then TokenizerStatus.Whitespace
    else if IsAsciiPunctuation(c) then TrailingPunctuation
    else InWord
  }

  /** `emit_token_if_needed` on a run `text` of class `status`: nothing for
      an empty run, otherwise the token of the run's class. */
  function Emitted(status: TokenizerStatus, style: nat, text: seq<char>): (r: Option<Token>)
    requires text != [] ==> status != AtSpanStart
    ensures r.None? <==> text == []
    ensures r.Some? ==> IsText(r.value) && r.value.span == PreparedSpan(style, text) && KindOf(r.value) == status
  {
    if text == [] then None
    else match status
      case InWord => Some(Characters(PreparedSpan(style, text)))
      case TrailingPunctuation => Some(Punctuation(PreparedSpan(style, text)))
      case Whitespace => Some(Token.Whitespace(PreparedSpan(style, text)))
  }

  // ---------------------------------------------------------------------
  // The tokens of one span, as a function of its text

  /** The tokens pushed so far, the run being collected and its class. */
  datatype Lexed = Lexed(tokens: seq<Token>, pending: seq<char>, status: TokenizerStatus)

  predicate Consistent(l: Lexed)
  {
    l.pending != [] ==> l.status != AtSpanStart
  }

  /** The tokens with the pending run emitted. */
  function Flushed(l: Lexed, style: nat): seq<Token>
    requires Consistent(l)
  {
    var e := Emitted(l.status, style, l.pending);
    if e.Some? then l.tokens + [e.value] else l.tokens
  }

  /** One character of the loop: control characters are dropped except the
      line feed, which ends the pending run and adds an end of line; a
      character of another class than the pending run's ends that run. */
  function Step(l: Lexed, style: nat, c: char): (r: Lexed)
    requires Consistent(l)
    ensures Consistent(r)
  {
    if IsControl(c) then
      if c == '\n' then Lexed(Flushed(l, style) + [EndOfLine(style)], [], l.status)
      else l
    else
      var s := Classify(c);
      if s != l.status then Lexed(Flushed(l, style), [c], s)
      else Lexed(l.tokens, l.pending + [c], s)
  }

  /** The state of the loop once it has read the whole of `t`. */
  function Lex(t: seq<char>, style: nat): (r: Lexed)
    ensures Consistent(r)
  {
    if t == [] then Lexed([], [], AtSpanStart)
    else Step(Lex(t[..|t| - 1], style), style, t[|t| - 1])
  }

  /** The tokens of one span: the loop's tokens and the final run. */
  function SpanTokens(span: Span): seq<Token>
  {
    Flushed(Lex(span.text, span.style), span.style)
  }

  /** The tokens of several spans, in order. */
  function AllTokens(spans: seq<Span>): seq<Token>
  {
    if spans == [] then [] else AllTokens(spans[..|spans| - 1]) + SpanTokens(spans[|spans| - 1])
  }

  /** `Tokenizer::prepare_spans`: the spans' tokens, or a single `NoText`
      carrying the last span's metrics when there are none. */
  function PreparedTokens(spans: seq<Span>): seq<Token>
  {
    var ts := AllTokens(spans);
    if ts == [] then [NoText(if spans == [] then None else Some(spans[|spans| - 1].style))] else ts
  }

  // ---------------------------------------------------------------------
  // What the tokens say about the text

  /** The text one token stands for: its run, a line feed, or nothing. */
  function TokenText(t: Token): seq<char>
  {
    if IsText(t) then t.span.text else if t.EndOfLine? then "\n" else []
  }

  /** The text the tokens stand for: their runs and line feeds. */
  function Rendered(ts: seq<Token>): seq<char>
  {
    if ts == [] then []
    else
      var t := ts[|ts| - 1];
      Rendered(ts[..|ts| - 1]) + TokenText(t)
  }

  /** The text runs of the tokens, without the ends of line. */
  function TextOf(ts: seq<Token>): seq<char>
  {
    if ts == [] then []
    else
      var t := ts[|ts| - 1];
      TextOf(ts[..|ts| - 1]) + (if IsText(t) then t.span.text else [])
  }

  /** The text without its control characters. */
  function Printable(t: seq<char>): seq<char>
  {
    if t == [] then []
    else Printable(t[..|t| - 1]) + (if IsControl(t[|t| - 1]) then [] else [t[|t| - 1]])
  }

  /** The text without its control characters other than the line feed. */
  function Kept(t: seq<char>): seq<char>
  {
    if t == [] then []
    else
      var c := t[|t| - 1];
      Kept(t[..|t| - 1]) + (if c == '\n' || !IsControl(c) then [c] else [])
  }

  /** Every text token is a non-empty run of one class, in the span's
      style, and every end of line carries the span's metrics. */
  ghost predicate Runs(ts: seq<Token>, style: nat)
  {
    forall i | 0 <= i < |ts| ::
      && (IsText(ts[i]) ==>
           && ts[i].span.style == style && ts[i].span.text != []
           && forall c | c in ts[i].span.text :: !IsControl(c) && Classify(c) == KindOf(ts[i]))
      && (ts[i].EndOfLine? ==> ts[i].metrics == style)
      && !ts[i].NoText?
  }

  /** Neighbouring text tokens hold runs of different classes, so no run
      could have been longer. */
  ghost predicate Alternating(ts: seq<Token>)
  {
    forall i | 0 <= i < |ts| - 1 :: IsText(ts[i]) && IsText(ts[i + 1]) ==> KindOf(ts[i]) != KindOf(ts[i + 1])
  }

  /** The loop's invariant: the tokens are alternating runs, the pending
      run is of its class and differs from a text token just before it, and
      an empty pending run follows nothing or an end of line. */
  ghost predicate LexInv(l: Lexed, style: nat)
  {
    && Consistent(l)
    && Runs(l.tokens, style)
    && Alternating(l.tokens)
    && (forall c | c in l.pending :: !IsControl(c) && Classify(c) == l.status)
    && (l.pending == [] ==> l.tokens == [] || l.tokens[|l.tokens| - 1].EndOfLine?)
    && (l.pending != [] && l.tokens != [] && IsText(l.tokens[|l.tokens| - 1]) ==>
          KindOf(l.tokens[|l.tokens| - 1]) != l.status)
  }

  lemma FlushedKeepsRuns(l: Lexed, style: nat)
    requires LexInv(l, style)
    ensures Runs(Flushed(l, style), style) && Alternating(Flushed(l, style))
  {
  }

  lemma StepKeepsInv(l: Lexed, style: nat, c: char)
    requires LexInv(l, style)
    ensures LexInv(Step(l, style, c), style)
  {
    if !IsControl(c) || c == '\n' {
      FlushedKeepsRuns(l, style);
    }
  }

  lemma {:induction false} LexInvHolds(t: seq<char>, style: nat)
    ensures LexInv(Lex(t, style), style)
  {
    if t != [] {
      LexInvHolds(t[..|t| - 1], style);
      StepKeepsInv(Lex(t[..|t| - 1], style), style, t[|t| - 1]);
    }
  }

  /** The tokens of a span are maximal runs of one class each, in the
      span's style, and none of them is empty. */
  lemma SpanTokensAreMaximalRuns(span: Span)
    ensures Runs(SpanTokens(span), span.style)
    ensures Alternating(SpanTokens(span))
  {
    LexInvHolds(span.text, span.style);
    FlushedKeepsRuns(Lex(span.text, span.style), span.style);
  }

  /** What a token list reads as is additive over concatenation. */
  lemma {:induction false} RenderedAppend(a: seq<Token>, b: seq<Token>)
    ensures Rendered(a + b) == Rendered(a) + Rendered(b)
    decreases |b|
  {
    if b == [] {
      assert a + b == a;
    } else {
      var init, last := b[..|b| - 1], b[|b| - 1];
      assert b == init + [last];
      RenderedAppend(a, init);
      RenderedAppendStep(a, init, last);
    }
  }

  lemma RenderedAppendStep(a: seq<Token>, init: seq<Token>, last: Token)
    requires Rendered(a + init) == Rendered(a) + Rendered(init)
    ensures Rendered(a + (init + [last])) == Rendered(a) + Rendered(init + [last])
  {
    AppendAssoc(a, init, [last]);
    RenderedSnoc(a + init, last);
    RenderedSnoc(init, last);
    AppendAssoc(Rendered(a), Rendered(init), TokenText(last));
  }

  /** Appending one token appends the text it stands for. */
  lemma RenderedSnoc(ts: seq<Token>, t: Token)
    ensures Rendered(ts + [t]) == Rendered(ts) + TokenText(t)
  {
    assert (ts + [t])[..|ts|] == ts;
  }

  /** Emitting the pending run appends it to what the tokens read as. */
  lemma FlushedRenders(l: Lexed, style: nat)
    requires Consistent(l)
    ensures Rendered(Flushed(l, style)) == Rendered(l.tokens) + l.pending
  {
    var e := Emitted(l.status, style, l.pending);
    if e.Some? {
      RenderedAppend(l.tokens, [e.value]);
      assert Rendered([e.value]) == l.pending by {
        assert [e.value][..0] == [];
      }
    }
  }

  lemma StepRenders(l: Lexed, style: nat, c: char)
    requires Consistent(l)
    ensures Rendered(Step(l, style, c).tokens) + Step(l, style, c).pending
      == Rendered(l.tokens) + l.pending + (if c == '\n' || !IsControl(c) then [c] else [])
  {
    if IsControl(c) {
      if c == '\n' {
        FlushedRenders(l, style);
        RenderedAppend(Flushed(l, style), [EndOfLine(style)]);
        assert Rendered([EndOfLine(style)]) == "\n" by {
          assert [EndOfLine(style)][..0] == [];
        }
      }
    } else if Classify(c) != l.status {
      FlushedRenders(l, style);
    }
  }

  lemma {:induction false} LexRenders(t: seq<char>, style: nat)
    ensures Rendered(Lex(t, style).tokens) + Lex(t, style).pending == Kept(t)
  {
    if t != [] {
      LexRenders(t[..|t| - 1], style);
      StepRenders(Lex(t[..|t| - 1], style), style, t[|t| - 1]);
    }
  }

  /** Read back in order, with a line feed for every end of line, the
      tokens of a span are its text without the control characters other
      than the line feed: no character is lost, duplicated or moved. */
  lemma SpanTokensRender(span: Span)
    ensures Rendered(SpanTokens(span)) == Kept(span.text)
  {
    LexRenders(span.text, span.style);
    FlushedRenders(Lex(span.text, span.style), span.style);
  }

  /** The kept text of several spans, one after the other. */
  function KeptAll(spans: seq<Span>): seq<char>
  {
    if spans == [] then [] else KeptAll(spans[..|spans| - 1]) + Kept(spans[|spans| - 1].text)
  }

  lemma {:induction false} AllTokensRender(spans: seq<Span>)
    ensures Rendered(AllTokens(spans)) == KeptAll(spans)
    ensures AllTokens(spans) == [] <==> KeptAll(spans) == []
  {
    if spans != [] {
      var last := spans[|spans| - 1];
      AllTokensRender(spans[..|spans| - 1]);
      SpanTokensRender(last);
      RenderedAppend(AllTokens(spans[..|spans| - 1]), SpanTokens(last));
      SpanTokensAreMaximalRuns(last);
      if SpanTokens(last) != [] {
        RenderedLastNonEmpty(SpanTokens(last));
      }
    }
  }

  /** Tokens that are runs render to something non-empty. */
  lemma RenderedLastNonEmpty(ts: seq<Token>)
    requires ts != [] && (IsText(ts[|ts| - 1]) ==> ts[|ts| - 1].span.text != [])
    requires IsText(ts[|ts| - 1]) || ts[|ts| - 1].EndOfLine?
    ensures Rendered(ts) != []
  {
  }

  /** `prepare_spans` yields tokens that read back as the spans' kept text;
      when that text is empty the result is the single `NoText` carrying
      the last span's metrics. */
  lemma PreparedTokensRender(spans: seq<Span>)
    ensures KeptAll(spans) != [] ==> Rendered(PreparedTokens(spans)) == KeptAll(spans)
    ensures KeptAll(spans) == [] ==>
      PreparedTokens(spans) == [NoText(if spans == [] then None else Some(spans[|spans| - 1].style))]
  {
    AllTokensRender(spans);
  }

  // ---------------------------------------------------------------------
  // The loop as written

  /** One character of the loop as written: a line feed adds an end of line
      at once, without first emitting the pending run, which continues
      after it. */
  function StepAsWritten(l: Lexed, style: nat, c: char): (r: Lexed)
    requires Consistent(l)
    ensures Consistent(r)
  {
    if IsControl(c) then
      if c == '\n' then Lexed(l.tokens + [EndOfLine(style)], l.pending, l.status)
      else l
    else
      var s := Classify(c);
      if s != l.status then Lexed(Flushed(l, style), [c], s)
      else Lexed(l.tokens, l.pending + [c], s)
  }

  function LexAsWritten(t: seq<char>, style: nat): (r: Lexed)
    ensures Consistent(r)
  {
    if t == [] then Lexed([], [], AtSpanStart)
    else StepAsWritten(LexAsWritten(t[..|t| - 1], style), style, t[|t| - 1])
  }

  /** The tokens of one span as the source computes them. */
  function SpanTokensAsWritten(span: Span): seq<Token>
  {
    Flushed(LexAsWritten(span.text, span.style), span.style)
  }

  /** The text runs of a token list are additive over concatenation. */
  lemma {:induction false} TextOfAppend(a: seq<Token>, b: seq<Token>)
    ensures TextOf(a + b) == TextOf(a) + TextOf(b)
    decreases |b|
  {
    if b == [] {
      assert a + b == a;
    } else {
      var init, last := b[..|b| - 1], b[|b| - 1];
      assert b == init + [last];
      TextOfAppend(a, init);
      AppendAssoc(a, init, [last]);
      TextOfSnoc(a + init, last);
      TextOfSnoc(init, last);
      AppendAssoc(TextOf(a), TextOf(init), if IsText(last) then last.span.text else []);
    }
  }

  lemma TextOfSnoc(ts: seq<Token>, t: Token)
    ensures TextOf(ts + [t]) == TextOf(ts) + (if IsText(t) then t.span.text else [])
  {
    assert (ts + [t])[..|ts|] == ts;
  }

  lemma {:induction false} LexAsWrittenText(t: seq<char>, style: nat)
    ensures TextOf(LexAsWritten(t, style).tokens) + LexAsWritten(t, style).pending == Printable(t)
  {
    if t != [] {
      var l := LexAsWritten(t[..|t| - 1], style);
      var c := t[|t| - 1];
      LexAsWrittenText(t[..|t| - 1], style);
      if !IsControl(c) {
        if Classify(c) != l.status {
          FlushedText(l, style);
        } else {
          AppendAssoc(TextOf(l.tokens), l.pending, [c]);
        }
      } else {
        if c == '\n' {
          TextOfSnoc(l.tokens, EndOfLine(style));
        }
        assert Printable(t) == Printable(t[..|t| - 1]) + [];
      }
    }
  }

  /** Emitting the pending run appends it to the tokens' runs. */
  lemma FlushedText(l: Lexed, style: nat)
    requires Consistent(l)
    ensures TextOf(Flushed(l, style)) == TextOf(l.tokens) + l.pending
  {
    var e := Emitted(l.status, style, l.pending);
    if e.Some? {
      TextOfSnoc(l.tokens, e.value);
    }
  }

  /** As written, the tokens' runs still concatenate to the span's text
      without its control characters. */
  lemma SpanTokensAsWrittenText(span: Span)
    ensures TextOf(SpanTokensAsWritten(span)) == Printable(span.text)
  {
    LexAsWrittenText(span.text, span.style);
    FlushedText(LexAsWritten(span.text, span.style), span.style);
  }

  lemma LexSnoc(p: seq<char>, c: char, style: nat)
    ensures Lex(p + [c], style) == Step(Lex(p, style), style, c)
  {
    assert (p + [c])[..|p|] == p;
  }

  lemma LexAsWrittenSnoc(p: seq<char>, c: char, style: nat)
    ensures LexAsWritten(p + [c], style) == StepAsWritten(LexAsWritten(p, style), style, c)
  {
    assert (p + [c])[..|p|] == p;
  }

  lemma SampleWord()
    ensures Lex("ab", 0) == Lexed([], "ab", InWord)
  {
    LexSnoc([], 'a', 0);
    assert [] + ['a'] == "a";
    LexSnoc("a", 'b', 0);
    assert "a" + ['b'] == "ab";
  }

  lemma SampleWordAsWritten()
    ensures LexAsWritten("ab", 0) == Lexed([], "ab", InWord)
  {
    LexAsWrittenSnoc([], 'a', 0);
    assert [] + ['a'] == "a";
    LexAsWrittenSnoc("a", 'b', 0);
    assert "a" + ['b'] == "ab";
  }

  lemma SampleLines()
    ensures Lex("ab\n", 0) == Lexed([Characters(PreparedSpan(0, "ab")), EndOfLine(0)], [], InWord)
  {
    SampleWord();
    LexSnoc("ab", '\n', 0);
    assert "ab" + ['\n'] == "ab\n";
  }

  lemma SampleLinesAsWritten()
    ensures LexAsWritten("ab\n", 0) == Lexed([EndOfLine(0)], "ab", InWord)
  {
    SampleWordAsWritten();
    LexAsWrittenSnoc("ab", '\n', 0);
    assert "ab" + ['\n'] == "ab\n";
  }

  lemma SampleCorrected()
    ensures Lex("ab\ncd", 0) == Lexed([Characters(PreparedSpan(0, "ab")), EndOfLine(0)], "cd", InWord)
  {
    SampleLines();
    LexSnoc("ab\n", 'c', 0);
    assert "ab\n" + ['c'] == "ab\nc";
    LexSnoc("ab\nc", 'd', 0);
    assert "ab\nc" + ['d'] == "ab\ncd";
  }

  lemma SampleAsWritten()
    ensures LexAsWritten("ab\ncd", 0) == Lexed([EndOfLine(0)], "abcd", InWord)
  {
    SampleLinesAsWritten();
    LexAsWrittenSnoc("ab\n", 'c', 0);
    assert "ab\n" + ['c'] == "ab\nc";
    LexAsWrittenSnoc("ab\nc", 'd', 0);
    assert "ab\nc" + ['d'] == "ab\ncd";
  }

  lemma SampleKept()
    ensures Kept("ab\ncd") == "ab\ncd"
  {
    assert "ab\ncd"[..4] == "ab\nc" && "ab\nc"[..3] == "ab\n" && "ab\n"[..2] == "ab";
    assert "ab"[..1] == "a" && "a"[..0] == [];
  }

  /** But the line feed overtakes the word before it, which then merges
      with the word after it: "ab\ncd" yields an end of line followed by
      the single word "abcd", which reads back as "\nabcd". */
  lemma AsWrittenMovesLineEnd()
    ensures SpanTokensAsWritten(Span("ab\ncd", 0)) == [EndOfLine(0), Characters(PreparedSpan(0, "abcd"))]
    ensures Rendered(SpanTokensAsWritten(Span("ab\ncd", 0))) == "\nabcd" != Kept("ab\ncd")
  {
    SampleAsWritten();
    var eol, word := EndOfLine(0), Characters(PreparedSpan(0, "abcd"));
    RenderedSnoc([], eol);
    assert [] + [eol] == [eol];
    RenderedSnoc([eol], word);
    assert [eol] + [word] == [eol, word];
    SampleKept();
  }

  /** With the pending run emitted before the end of line, "ab\ncd" yields
      "ab", an end of line and "cd", which reads back as the text itself. */
  lemma CorrectedKeepsLineEnd()
    ensures SpanTokens(Span("ab\ncd", 0))
      == [Characters(PreparedSpan(0, "ab")), EndOfLine(0), Characters(PreparedSpan(0, "cd"))]
    ensures Rendered(SpanTokens(Span("ab\ncd", 0))) == "ab\ncd"
  {
    SampleCorrected();
    SpanTokensRender(Span("ab\ncd", 0));
    SampleKept();
  }

  // ---------------------------------------------------------------------
  // The tokenizer

  /** `TokenizerState`: the run being collected in one span. */
  class TokenizerState {
    const style: nat
    var text: seq<char>
    var lexerState: TokenizerStatus

    /** `TokenizerState::new`. */
    constructor(style: nat)
      ensures this.style == style && text == [] && lexerState == AtSpanStart
    {
      this.style := style;
      text := [];
      lexerState := AtSpanStart;
    }

    /** `emit_token_if_needed`: nothing for an empty run; otherwise the
        run's token, and the run is cleared. The class is kept. */
    method EmitTokenIfNeeded() returns (t: Option<Token>)
      requires text != [] ==> lexerState != AtSpanStart
      modifies this
      ensures t == Emitted(old(lexerState), style, old(text))
      ensures text == [] && lexerState == old(lexerState)
    {
      if text == [] {
        return None;
      }
      var run := text;
      text := [];
      match lexerState {
        case InWord => t := Some(Characters(PreparedSpan(style, run)));
        case TrailingPunctuation => t := Some(Punctuation(PreparedSpan(style, run)));
        case Whitespace => t := Some(Token.Whitespace(PreparedSpan(style, run)));
      }
    }
  }

  /** `Tokenizer`. */
  class Tokenizer {
    var tokens: seq<Token>

    /** `Tokenizer::default`. */
    constructor()
      ensures tokens == []
    {
      tokens := [];
    }

    /** The body of `prepare_spans`'s loop for one span, with a line feed
        emitting the pending run before its end of line. */
    method TokenizeSpan(span: Span)
      modifies this
      ensures tokens == old(tokens) + SpanTokens(span)
    {
      var state := new TokenizerState(span.style);
      var before := tokens;
      var ts: seq<Token> := [];
      var i := 0;
      while i < |span.text|
        invariant 0 <= i <= |span.text|
        invariant Lex(span.text[..i], span.style) == Lexed(ts, state.text, state.lexerState)
        invariant state.style == span.style
        invariant tokens == before
      {
        assert span.text[..i + 1][..i] == span.text[..i];
        var c := span.text[i];
        if IsControl(c) {
          if c == '\n' {
            var t := state.EmitTokenIfNeeded();
            if t.Some? {
              ts := ts + [t.value];
            }
            ts := ts + [EndOfLine(span.style)];
          }
        } else {
          var s := Classify(c);
          if s != state.lexerState {
            var t := state.EmitTokenIfNeeded();
            if t.Some? {
              ts := ts + [t.value];
            }
          }
          state.lexerState := s;
          state.text := state.text + [c];
        }
        i := i + 1;
      }
      assert span.text[..i] == span.text;
      var t := state.EmitTokenIfNeeded();
      if t.Some? {
        ts := ts + [t.value];
      }
      tokens := before + ts;
    }

    /** `prepare_spans`: the tokens of every span in turn, and a `NoText`
        with the last span's metrics when there are none. */
    method PrepareSpans(spans: seq<Span>) returns (r: seq<Token>)
      modifies this
      ensures var ts := old(tokens) + AllTokens(spans);
        r == if ts == [] then [NoText(if spans == [] then None else Some(spans[|spans| - 1].style))] else ts
      ensures r == tokens
    {
      var lastMetrics: Option<nat> := None;
      var i := 0;
      while i < |spans|
        invariant 0 <= i <= |spans|
        invariant tokens == old(tokens) + AllTokens(spans[..i])
        invariant lastMetrics == if i == 0 then None else Some(spans[i - 1].style)
      {
        assert spans[..i + 1][..i] == spans[..i];
        lastMetrics := Some(spans[i].style);
        TokenizeSpan(spans[i]);
        i := i + 1;
      }
      assert spans[..i] == spans;
      if tokens == [] {
        tokens := tokens + [NoText(lastMetrics)];
      }
      r := tokens;
    }
  }

  lemma SentenceWord()
    ensures Lex("hi", 1) == Lexed([], "hi", InWord)
  {
    LexSnoc([], 'h', 1);
    assert [] + ['h'] == "h";
    LexSnoc("h", 'i', 1);
    assert "h" + ['i'] == "hi";
  }

  lemma SentenceComma()
    ensures Lex("hi,", 1) == Lexed([Characters(PreparedSpan(1, "hi"))], ",", TrailingPunctuation)
  {
    SentenceWord();
    LexSnoc("hi", ',', 1);
    assert "hi" + [','] == "hi,";
  }

  lemma SentenceSpace()
    ensures Lex("hi, ", 1) == Lexed([Characters(PreparedSpan(1, "hi")), Punctuation(PreparedSpan(1, ","))], " ",
                                   TokenizerStatus.Whitespace)
  {
    SentenceComma();
    LexSnoc("hi,", ' ', 1);
    assert "hi," + [' '] == "hi, ";
  }

  lemma SentenceY()
    ensures Lex("hi, y", 1) == Lexed([Characters(PreparedSpan(1, "hi")), Punctuation(PreparedSpan(1, ",")),
                                      Token.Whitespace(PreparedSpan(1, " "))], "y", InWord)
  {
    SentenceSpace();
    LexSnoc("hi, ", 'y', 1);
    assert "hi, " + ['y'] == "hi, y";
  }

  lemma SentenceTokens()
    ensures SpanTokens(Span("hi, yo", 1))
      == [Characters(PreparedSpan(1, "hi")), Punctuation(PreparedSpan(1, ",")),
          Token.Whitespace(PreparedSpan(1, " ")), Characters(PreparedSpan(1, "yo"))]
  {
    SentenceY();
    LexSnoc("hi, y", 'o', 1);
    assert "hi, y" + ['o'] == "hi, yo";
    assert Lex("hi, yo", 1) == Lexed([Characters(PreparedSpan(1, "hi")), Punctuation(PreparedSpan(1, ",")),
                                      Token.Whitespace(PreparedSpan(1, " "))], "yo", InWord);
  }

  /** Three words separated by a space and a comma: each run is a token,
      and the punctuation keeps its own token. */
  method TokenizeSentence() returns (r: seq<Token>)
    ensures r == [Characters(PreparedSpan(1, "hi")), Punctuation(PreparedSpan(1, ",")),
                  Token.Whitespace(PreparedSpan(1, " ")), Characters(PreparedSpan(1, "yo"))]
  {
    var tk := new Tokenizer();
    var t := "hi, yo";
    SentenceTokens();
    assert [Span(t, 1)][..0] == [];
    r := tk.PrepareSpans([Span(t, 1)]);
  }

  /** Spans with no printable text yield the single `NoText`. */
  method TokenizeBlank() returns (r: seq<Token>)
    ensures r == [NoText(Some(4))]
  {
    var tk := new Tokenizer();
    assert [Span([], 3), Span("\t", 4)][..1] == [Span([], 3)];
    assert [Span([], 3)][..0] == [];
    assert "\t"[..0] == [];
    r := tk.PrepareSpans([Span([], 3), Span("\t", 4)]);
  }
}
