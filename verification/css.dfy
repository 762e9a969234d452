/** The CSS helpers of the browser frontend (frontends/browser/src/utils.rs):
    the element id of a widget, and the builder of a CSS block for one
    widget with its `Display` rendering. */
module GooeyBrowserCss {
  import opened Common

  /** `widget_css_id`: "goo-" and the widget id in decimal. */
  function WidgetCssId(widgetId: U32): (r: string)
    ensures |r| > 4 && r[..4] == "goo-"
  {
    "goo-" + NatDigits(widgetId)
  }

  /** The id is recovered from its element id. */
  lemma WidgetCssIdRoundTrip(widgetId: U32)
    ensures ParseNat(WidgetCssId(widgetId)[4..]) == widgetId
  {
    assert WidgetCssId(widgetId)[4..] == NatDigits(widgetId);
    NatDigitsRoundTrip(widgetId);
  }

  /** `CssBlockBuilder`. */
  datatype CssBlockBuilder = CssBlockBuilder(selector: string, statements: seq<string>)

  /** `CssBlockBuilder::for_id`: the id selector of the widget and no
      statements. */
  function ForId(widgetId: U32): (b: CssBlockBuilder)
    ensures b.selector == "#" + WidgetCssId(widgetId) && b.statements == []
  {
    CssBlockBuilder("#" + WidgetCssId(widgetId), [])
  }

  /** `CssBlockBuilder::with_css_statement`: the statement goes after the
      others. */
  function WithCssStatement(b: CssBlockBuilder, css: string): (r: CssBlockBuilder)
    ensures r.selector == b.selector && r.statements == b.statements + [css]
  {
    b.(statements := b.statements + [css])
  }

  /** The statements each followed by a semicolon, in order. */
  function Body(statements: seq<string>): string
  {
    if statements == [] then "" else statements[0] + ";" + Body(statements[1..])
  }

  /** The rendering of a block: the selector, then the statements in
      braces. */
  function Render(b: CssBlockBuilder): string
  {
    b.selector + "{" + Body(b.statements) + "}"
  }

  /** `Display::fmt`: writes the selector and an opening brace, each
      statement and a semicolon, and a closing brace. */
  method Fmt(b: CssBlockBuilder) returns (out: string)
    ensures out == Render(b)
  {
    out := b.selector + "{";
    var i := 0;
    while i < |b.statements|
      invariant 0 <= i <= |b.statements|
      invariant out + Body(b.statements[i..]) == b.selector + "{" + Body(b.statements)
    {
      assert b.statements[i..][1..] == b.statements[i + 1..];
      AppendAssoc(out, b.statements[i] + ";", Body(b.statements[i + 1..]));
      out := out + b.statements[i] + ";";
      i := i + 1;
    }
    assert b.statements[i..] == [];
    out := out + "}";
  }

  /** The text before the first semicolon, and what follows it. */
  function SplitFirst(s: string): (r: (string, string))
    ensures |r.1| < |s| || s == r.0
  {
    if s == [] then ("", "")
    else if s[0] == ';' then ("", s[1..])
    else var rest := SplitFirst(s[1..]); ([s[0]] + rest.0, rest.1)
  }

  /** The statements read back from a block body, cutting at semicolons. */
  function Statements(body: string): seq<string>
    decreases |body|
  {
    if body == [] then []
    else
      var r := SplitFirst(body);
      if |r.1| < |body| then [r.0] + Statements(r.1) else [r.0]
  }

  /** Cutting a statement without a semicolon off the front of a body. */
  lemma {:induction false} SplitFirstOfStatement(s: string, rest: string)
    requires ';' !in s
    ensures SplitFirst(s + ";" + rest) == (s, rest)
  {
    if s != [] {
      assert (s + ";" + rest)[1..] == s[1..] + ";" + rest;
      SplitFirstOfStatement(s[1..], rest);
      assert [s[0]] + s[1..] == s;
    }
  }

  /** Statements without semicolons are read back from the body the block
      renders. */
  lemma {:induction false} BodyRoundTrip(statements: seq<string>)
    requires forall i :: 0 <= i < |statements| ==> ';' !in statements[i]
    ensures Statements(Body(statements)) == statements
  {
    if statements != [] {
      var body := Body(statements);
      SplitFirstOfStatement(statements[0], Body(statements[1..]));
      assert body == statements[0] + ";" + Body(statements[1..]);
      BodyRoundTrip(statements[1..]);
    }
  }

  /** A block for a widget renders as its id selector followed by the
      statements in braces, and the statements can be read back. */
  lemma BlockForWidget(widgetId: U32, css: seq<string>)
    requires forall i :: 0 <= i < |css| ==> ';' !in css[i]
    ensures var b := Build(widgetId, css);
      && Render(b) == "#goo-" + NatDigits(widgetId) + "{" + Body(css) + "}"
      && Statements(Body(b.statements)) == css
  {
    BuildKeepsOrder(widgetId, css);
    var b := Build(widgetId, css);
    AppendAssoc("#", "goo-", NatDigits(widgetId));
    assert b.selector == "#goo-" + NatDigits(widgetId);
    BodyRoundTrip(css);
  }

  /** A builder for a widget given the statements one by one. */
  function Build(widgetId: U32, css: seq<string>): CssBlockBuilder
  {
    if css == [] then ForId(widgetId) else WithCssStatement(Build(widgetId, css[..|css| - 1]), css[|css| - 1])
  }

  /** Adding statements one by one keeps them in the order they were
      given. */
  lemma {:induction false} BuildKeepsOrder(widgetId: U32, css: seq<string>)
    ensures Build(widgetId, css) == CssBlockBuilder("#" + WidgetCssId(widgetId), css)
  {
    if css != [] {
      var init, last := css[..|css| - 1], css[|css| - 1];
      BuildKeepsOrder(widgetId, init);
      var b := Build(widgetId, init);
      assert Build(widgetId, css) == WithCssStatement(b, last);
      InitLast(css);
    }
  }
}
