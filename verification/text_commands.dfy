/**
 * The command compiler of the text engine: tokens become a flat stream of
 * glyph, style and break commands (textBufferToCommands,
 * markupBufferToCommands, tokensToCommands).
 */
module TextCommands {
  import opened Common
  import opened TextTokens

  datatype BreakTarget = Line | Page

  /**
   * A layout command. A glyph draws one character; `breakable` says a line may
   * end at it. A style hands its text to the style handler. A break ends the
   * current line or page.
   */
  datatype Command = Glyph(ch: char, breakable: bool) | Style(style: string) | Break(target: BreakTarget)

  /** One glyph per character, in order; only a space may be broken at. */
  function TextBufferToCommands(buffer: string): (r: seq<Command>)
    ensures |r| == |buffer|
    ensures forall k :: 0 <= k < |r| ==> r[k].Glyph? && r[k].ch == buffer[k] && (r[k].breakable <==> buffer[k] == ' ')
  {
    if buffer == [] then []
    else
      var c := buffer[|buffer| - 1];
      TextBufferToCommands(buffer[..|buffer| - 1]) + [Glyph(c, c == ' ')]
  }

  /** "ep" is a page break, "el" a line break, any other markup a style. */
  function MarkupBufferToCommands(buffer: string): (r: seq<Command>)
    ensures |r| == 1
  {
    if buffer == "ep" then [Break(Page)]
    else if buffer == "el" then [Break(Line)]
    else [Style(buffer)]
  }

  function TokenToCommands(t: Token): (r: seq<Command>)
    ensures t.Text? ==> |r| == |t.buffer| && forall k :: 0 <= k < |r| ==> r[k] == Glyph(t.buffer[k], t.buffer[k] == ' ')
    ensures t.Markup? ==> |r| == 1 && !r[0].Glyph? && (r[0].Break? <==> t.buffer == "ep" || t.buffer == "el")
  {
    match t
    case Text(b) => TextBufferToCommands(b)
    case Markup(b) => MarkupBufferToCommands(b)
  }

  /** tokensToCommands: the commands of each token, concatenated in token order. */
  function TokensToCommands(tokens: seq<Token>): (r: seq<Command>)
    ensures |r| == TokensCommandCount(tokens)
    ensures GlyphText(r) == TokensText(tokens)
    ensures OnlySpacesBreakable(r)
  {
    CommandsPerToken(tokens);
    CommandsDrawTokensText(tokens);
    CompiledBreakables(tokens);
    FlatMap(tokens, TokenToCommands)
  }

  // ---------------------------------------------------------------------------
  // Reading commands back

  /** The characters the glyph commands of cs draw, in order. */
  function GlyphText(cs: seq<Command>): string
  {
    if cs == [] then ""
    else GlyphText(cs[..|cs| - 1]) + (if cs[|cs| - 1].Glyph? then [cs[|cs| - 1].ch] else "")
  }

  /** The markup a single style or break command came from. */
  function CommandMarkup(c: Command): string
  {
    match c
    case Glyph(ch, _) => [ch]
    case Style(s) => s
    case Break(Page) => "ep"
    case Break(Line) => "el"
  }

  /** The text of all text tokens, in order. */
  function TokensText(tokens: seq<Token>): string
  {
    if tokens == [] then ""
    else TokensText(tokens[..|tokens| - 1]) + (if tokens[|tokens| - 1].Text? then tokens[|tokens| - 1].buffer else "")
  }

  /** Only spaces may be broken at: no other glyph is breakable when compiled. */
  predicate OnlySpacesBreakable(cs: seq<Command>)
  {
    forall k :: 0 <= k < |cs| && cs[k].Glyph? ==> (cs[k].breakable <==> cs[k].ch == ' ')
  }

  // ---------------------------------------------------------------------------
  // Properties

  lemma {:induction false} GlyphTextAppend(a: seq<Command>, b: seq<Command>)
    ensures GlyphText(a + b) == GlyphText(a) + GlyphText(b)
    decreases |b|
  {
    if b == [] {
      assert a + b == a;
    } else {
      assert (a + b)[..|a + b| - 1] == a + b[..|b| - 1];
      GlyphTextAppend(a, b[..|b| - 1]);
    }
  }

  /** Text compiles to glyphs that draw exactly that text. */
  lemma {:induction false} TextRoundTrip(buffer: string)
    ensures GlyphText(TextBufferToCommands(buffer)) == buffer
    decreases |buffer|
  {
    if buffer != [] {
      var init := buffer[..|buffer| - 1];
      var c := buffer[|buffer| - 1];
      TextRoundTrip(init);
      GlyphTextAppend(TextBufferToCommands(init), [Glyph(c, c == ' ')]);
      assert GlyphText([Glyph(c, c == ' ')]) == [c];
      assert init + [c] == buffer;
    }
  }

  /** Markup compiles to one command that gives the markup back. */
  lemma MarkupRoundTrip(buffer: string)
    ensures |MarkupBufferToCommands(buffer)| == 1
    ensures !MarkupBufferToCommands(buffer)[0].Glyph?
    ensures CommandMarkup(MarkupBufferToCommands(buffer)[0]) == buffer
    ensures MarkupBufferToCommands(buffer)[0].Break? <==> buffer == "ep" || buffer == "el"
  {
  }

  /** The glyphs of the compiled tokens draw the text of the text tokens, in order. */
  lemma {:induction false} CommandsDrawTokensText(tokens: seq<Token>)
    ensures GlyphText(FlatMap(tokens, TokenToCommands)) == TokensText(tokens)
    decreases |tokens|
  {
    if tokens != [] {
      var init := tokens[..|tokens| - 1];
      var t := tokens[|tokens| - 1];
      CommandsDrawTokensText(init);
      GlyphTextAppend(FlatMap(init, TokenToCommands), TokenToCommands(t));
      match t
      case Text(b) =>
        TextRoundTrip(b);
      case Markup(b) =>
        assert GlyphText(MarkupBufferToCommands(b)) == "" by {
          var m := MarkupBufferToCommands(b);
          assert m[..0] == [];
        }
    }
  }

  /** Freshly compiled commands mark exactly the spaces as breakable. */
  lemma {:induction false} CompiledBreakables(tokens: seq<Token>)
    ensures OnlySpacesBreakable(FlatMap(tokens, TokenToCommands))
    decreases |tokens|
  {
    if tokens != [] {
      CompiledBreakables(tokens[..|tokens| - 1]);
      var a := FlatMap(tokens[..|tokens| - 1], TokenToCommands);
      var b := TokenToCommands(tokens[|tokens| - 1]);
      assert forall k :: 0 <= k < |b| ==> (a + b)[|a| + k] == b[k];
    }
  }

  /** Each token contributes its own commands, in token order. */
  lemma {:induction false} CommandsPerToken(tokens: seq<Token>)
    ensures |FlatMap(tokens, TokenToCommands)| == TokensCommandCount(tokens)
    decreases |tokens|
  {
    if tokens != [] {
      CommandsPerToken(tokens[..|tokens| - 1]);
    }
  }

  /** How many commands a token list compiles to: one per text character, one per markup token. */
  function TokensCommandCount(tokens: seq<Token>): nat
  {
    if tokens == [] then 0
    else TokensCommandCount(tokens[..|tokens| - 1]) + (match tokens[|tokens| - 1]
      case Text(b) => |b|
      case Markup(_) => 1)
  }

  /** Compiling one more token appends its commands. */
  lemma TokensToCommandsSnoc(tokens: seq<Token>, t: Token)
    ensures TokensToCommands(tokens + [t]) == TokensToCommands(tokens) + TokenToCommands(t)
  {
    assert (tokens + [t])[..|tokens|] == tokens;
  }

  lemma TextExample()
    ensures TextBufferToCommands("a b") == [Glyph('a', false), Glyph(' ', true), Glyph('b', false)]
  {
    assert "a b"[..2] == "a " && "a "[..1] == "a" && "a"[..0] == "";
  }

  /** The documentation example, compiled. */
  lemma CommandsExample()
    ensures TokensToCommands([Text("a b"), Markup("el"), Markup("clr=red"), Markup("ep")])
      == [Glyph('a', false), Glyph(' ', true), Glyph('b', false), Break(Line), Style("clr=red"), Break(Page)]
  {
    var t0, t1, t2, t3 := Text("a b"), Markup("el"), Markup("clr=red"), Markup("ep");
    TextExample();
    TokensToCommandsSnoc([], t0);
    TokensToCommandsSnoc([t0], t1);
    TokensToCommandsSnoc([t0, t1], t2);
    TokensToCommandsSnoc([t0, t1, t2], t3);
    assert [] + [t0] == [t0] && [t0] + [t1] == [t0, t1] && [t0, t1] + [t2] == [t0, t1, t2];
    assert [t0, t1, t2] + [t3] == [t0, t1, t2, t3];
    assert "clr=red" != "ep" && "clr=red" != "el";
  }
}
