/**
 * The markup tokeniser of the bitmap-font text engine (tokeniseScript).
 * A script is split into text tokens and markup tokens: `{...}` bodies are
 * markup, a literal newline is the markup token "el", everything else is text.
 */
module TextTokens {

  datatype Token = Text(buffer: string) | Markup(buffer: string)

  /** The variables the tokeniser's closures share: emitted tokens, the pending buffer and the brace depth. */
  datatype TokeniserState = TokeniserState(tokens: seq<Token>, buffer: string, braceDepth: int)

  const Initial := TokeniserState([], "", 0)

  /** Characters the tokeniser reacts to; every other character goes into the buffer. */
  predicate IsSpecial(c: char)
  {
    c == '{' || c == '}' || c == '\n'
  }

  predicate Plain(s: string)
  {
    forall k :: 0 <= k < |s| ==> !IsSpecial(s[k])
  }

  /** flushBuffer: an empty buffer emits nothing; otherwise its kind is decided by the brace depth. */
  function Flush(st: TokeniserState): (r: TokeniserState)
    ensures r.buffer == "" && r.braceDepth == st.braceDepth
  {
    if |st.buffer| == 0 then st
    else
      var token := if st.braceDepth > 0 then Markup(st.buffer) else Text(st.buffer);
      TokeniserState(st.tokens + [token], "", st.braceDepth)
  }

  /** openBrace: at depth 0 the pending text is flushed; the depth goes up by one. */
  function OpenBrace(st: TokeniserState): (r: TokeniserState)
    ensures r.braceDepth == st.braceDepth + 1
    ensures st.braceDepth == 0 ==> r.tokens == st.tokens + TokenIfAny(Text(st.buffer)) && r.buffer == ""
    ensures st.braceDepth != 0 ==> r.tokens == st.tokens && r.buffer == st.buffer
  {
    var s := if st.braceDepth == 0 then Flush(st) else st;
    s.(braceDepth := s.braceDepth + 1)
  }

  /** closeBrace: leaving the outermost brace flushes the pending markup; the depth goes down by one. */
  function CloseBrace(st: TokeniserState): (r: TokeniserState)
    ensures r.braceDepth == st.braceDepth - 1
    ensures st.braceDepth == 1 ==> r.tokens == st.tokens + TokenIfAny(Markup(st.buffer)) && r.buffer == ""
    ensures st.braceDepth != 1 ==> r.tokens == st.tokens && r.buffer == st.buffer
  {
    var s := if st.braceDepth == 1 then Flush(st) else st;
    s.(braceDepth := s.braceDepth - 1)
  }

  /** newLine: the pending buffer is flushed, as markup inside braces, then one "el" markup token follows. */
  function NewLine(st: TokeniserState): (r: TokeniserState)
    ensures r.tokens == st.tokens + TokenIfAny(if st.braceDepth > 0 then Markup(st.buffer) else Text(st.buffer)) + [Markup("el")]
    ensures r.buffer == "" && r.braceDepth == st.braceDepth
  {
    var s := Flush(st);
    s.(tokens := s.tokens + [Markup("el")])
  }

  /** One iteration of the tokeniser's character loop. */
  function Step(st: TokeniserState, c: char): TokeniserState
  {
    if c == '{' then OpenBrace(st)
    else if c == '}' then CloseBrace(st)
    else if c == '\n' then NewLine(st)
    else st.(buffer := st.buffer + [c])
  }

  /** The state after feeding the characters of s, in order, from st. */
  function Run(st: TokeniserState, s: string): TokeniserState
  {
    if s == [] then st else Step(Run(st, s[..|s| - 1]), s[|s| - 1])
  }

  /** What tokeniseScript returns: run over the script, then flush what remains. */
  function TokeniseSpec(script: string): seq<Token>
  {
    Flush(Run(Initial, script)).tokens
  }

  /** tokeniseScript, with its closures' shared variables as locals. */
  method Tokenise(script: string) returns (tokens: seq<Token>)
    ensures tokens == TokeniseSpec(script)
  {
    tokens := [];
    var buffer := "";
    var braceDepth := 0;
    var i := 0;
    while i < |script|
      invariant 0 <= i <= |script|
      invariant TokeniserState(tokens, buffer, braceDepth) == Run(Initial, script[..i])
    {
      var c := script[i];
      assert script[..i + 1][..i] == script[..i];
      if c == '{' {
        if braceDepth == 0 && |buffer| > 0 {
          tokens := tokens + [if braceDepth > 0 then Markup(buffer) else Text(buffer)];
          buffer := "";
        }
        braceDepth := braceDepth + 1;
      } else if c == '}' {
        if braceDepth == 1 && |buffer| > 0 {
          tokens := tokens + [if braceDepth > 0 then Markup(buffer) else Text(buffer)];
          buffer := "";
        }
        braceDepth := braceDepth - 1;
      } else if c == '\n' {
        if |buffer| > 0 {
          tokens := tokens + [if braceDepth > 0 then Markup(buffer) else Text(buffer)];
          buffer := "";
        }
        tokens := tokens + [Markup("el")];
      } else {
        buffer := buffer + [c];
      }
      i := i + 1;
    }
    assert script[..i] == script;
    if |buffer| > 0 {
      tokens := tokens + [if braceDepth > 0 then Markup(buffer) else Text(buffer)];
    }
  }

  // ---------------------------------------------------------------------------
  // Properties

  predicate NoEmptyTokens(tokens: seq<Token>)
  {
    forall k :: 0 <= k < |tokens| ==> |tokens[k].buffer| > 0
  }

  lemma {:induction false} RunNoEmptyTokens(st: TokeniserState, s: string)
    requires NoEmptyTokens(st.tokens)
    ensures NoEmptyTokens(Run(st, s).tokens)
    decreases |s|
  {
    if s != [] {
      RunNoEmptyTokens(st, s[..|s| - 1]);
    }
  }

  /** The tokeniser never emits a token with an empty buffer. */
  lemma TokensAreNonEmpty(script: string)
    ensures NoEmptyTokens(TokeniseSpec(script))
  {
    RunNoEmptyTokens(Initial, script);
  }

  lemma {:induction false} RunAppend(st: TokeniserState, a: string, b: string)
    ensures Run(st, a + b) == Run(Run(st, a), b)
    decreases |b|
  {
    if b == [] {
      assert a + b == a;
    } else {
      assert (a + b)[..|a + b| - 1] == a + b[..|b| - 1];
      RunAppend(st, a, b[..|b| - 1]);
    }
  }

  /** Ordinary characters only grow the buffer. */
  lemma {:induction false} RunPlain(st: TokeniserState, s: string)
    requires Plain(s)
    ensures Run(st, s) == st.(buffer := st.buffer + s)
    decreases |s|
  {
    if s == [] {
      assert st.buffer + s == st.buffer;
    } else {
      RunPlain(st, s[..|s| - 1]);
      assert st.buffer + s[..|s| - 1] + [s[|s| - 1]] == st.buffer + s;
    }
  }

  /** A token list holding t when t's buffer is non-empty, nothing otherwise. */
  function TokenIfAny(t: Token): seq<Token>
  {
    if |t.buffer| > 0 then [t] else []
  }

  /** A braced body at depth 0: the pending text is flushed, then the body is one markup token. */
  lemma MarkupSegment(st: TokeniserState, m: string)
    requires st.braceDepth == 0 && Plain(m)
    ensures Run(st, "{" + m + "}") == TokeniserState(st.tokens + TokenIfAny(Text(st.buffer)) + TokenIfAny(Markup(m)), "", 0)
  {
    var afterOpen := TokeniserState(st.tokens + TokenIfAny(Text(st.buffer)), "", 1);
    assert Run(st, "{") == afterOpen by {
      assert "{"[..0] == [];
    }
    RunAppend(st, "{", m);
    RunPlain(afterOpen, m);
    var inside := afterOpen.(buffer := m);
    assert Run(st, "{" + m) == inside;
    RunAppend(st, "{" + m, "}");
    assert Run(inside, "}") == CloseBrace(inside) by {
      assert "}"[..0] == [];
    }
  }

  /** An unterminated brace does not fail: what follows it is flushed as markup at the end. */
  lemma UnterminatedBrace(st: TokeniserState, m: string)
    requires st.braceDepth == 0 && Plain(m)
    ensures Flush(Run(st, "{" + m)).tokens == st.tokens + TokenIfAny(Text(st.buffer)) + TokenIfAny(Markup(m))
  {
    var afterOpen := TokeniserState(st.tokens + TokenIfAny(Text(st.buffer)), "", 1);
    assert Run(st, "{") == afterOpen by {
      assert "{"[..0] == [];
    }
    RunAppend(st, "{", m);
    RunPlain(afterOpen, m);
    assert afterOpen.buffer + m == m;
  }

  /**
   * A newline flushes the pending buffer (as text at depth 0, as markup inside
   * braces) and then emits exactly one "el" markup token, at any depth.
   */
  lemma NewLineSegment(st: TokeniserState)
    ensures Run(st, "\n") == TokeniserState(st.tokens + TokenIfAny(if st.braceDepth > 0 then Markup(st.buffer) else Text(st.buffer)) + [Markup("el")], "", st.braceDepth)
  {
    assert "\n"[..0] == [];
  }

  // A reference description of well-formed scripts: a list of pieces.
  datatype Piece = PText(text: string) | PMarkup(body: string) | PNewline

  /** The script text a list of pieces spells. */
  function Render(ps: seq<Piece>): string
  {
    if ps == [] then ""
    else
      var p := ps[|ps| - 1];
      Render(ps[..|ps| - 1]) + (match p
        case PText(s) => s
        case PMarkup(m) => "{" + m + "}"
        case PNewline => "\n")
  }

  /** The tokens a list of pieces should produce: one per non-empty piece, in order. */
  function Expected(ps: seq<Piece>): seq<Token>
  {
    if ps == [] then []
    else
      var p := ps[|ps| - 1];
      Expected(ps[..|ps| - 1]) + (match p
        case PText(s) => TokenIfAny(Text(s))
        case PMarkup(m) => TokenIfAny(Markup(m))
        case PNewline => [Markup("el")])
  }

  /** Pieces whose texts and bodies hold no special character, with no two text pieces adjacent. */
  predicate WellFormed(ps: seq<Piece>)
  {
    && (forall k :: 0 <= k < |ps| && ps[k].PText? ==> Plain(ps[k].text))
    && (forall k :: 0 <= k < |ps| && ps[k].PMarkup? ==> Plain(ps[k].body))
    && (forall k :: 0 < k < |ps| && ps[k].PText? ==> !ps[k - 1].PText?)
  }

  /** The state after a well-formed prefix: everything but a trailing text piece is emitted. */
  function StateAfter(ps: seq<Piece>): TokeniserState
  {
    if ps != [] && ps[|ps| - 1].PText? then TokeniserState(Expected(ps[..|ps| - 1]), ps[|ps| - 1].text, 0)
    else TokeniserState(Expected(ps), "", 0)
  }

  lemma {:induction false} RunPieces(ps: seq<Piece>)
    requires WellFormed(ps)
    ensures Run(Initial, Render(ps)) == StateAfter(ps)
    decreases |ps|
  {
    if ps != [] {
      var init := ps[..|ps| - 1];
      var p := ps[|ps| - 1];
      assert WellFormed(init);
      RunPieces(init);
      var st := StateAfter(init);
      assert Expected(init) == st.tokens + TokenIfAny(Text(st.buffer));
      match p
      case PText(s) =>
        RunAppend(Initial, Render(init), s);
        RunPlain(st, s);
      case PMarkup(m) =>
        RunAppend(Initial, Render(init), "{" + m + "}");
        MarkupSegment(st, m);
      case PNewline =>
        RunAppend(Initial, Render(init), "\n");
        NewLineSegment(st);
    }
  }

  /**
   * Text outside braces becomes text tokens and each braced body one markup
   * token, in input order; a newline is the markup token "el".
   */
  lemma {:induction false} TokeniseWellFormed(ps: seq<Piece>)
    requires WellFormed(ps)
    ensures TokeniseSpec(Render(ps)) == Expected(ps)
  {
    RunPieces(ps);
  }

  lemma ExampleScriptParts()
    ensures "Hello {clr=#ff0000}world" == "Hello " + ("{" + "clr=#ff0000" + "}") + "world"
    ensures Plain("Hello ") && Plain("clr=#ff0000") && Plain("world")
  {
  }

  /** The example from the markup documentation. */
  lemma TokeniseExample()
    ensures TokeniseSpec("Hello {clr=#ff0000}world") == [Text("Hello "), Markup("clr=#ff0000"), Text("world")]
  {
    var hello, body, world := "Hello ", "clr=#ff0000", "world";
    ExampleScriptParts();
    RunPlain(Initial, hello);
    assert "" + hello == hello;
    var st1 := TokeniserState([], hello, 0);
    assert Run(Initial, hello) == st1;
    MarkupSegment(st1, body);
    RunAppend(Initial, hello, "{" + body + "}");
    var st2 := TokeniserState([Text(hello), Markup(body)], "", 0);
    assert TokenIfAny(Text(hello)) == [Text(hello)] && TokenIfAny(Markup(body)) == [Markup(body)];
    assert Run(Initial, hello + ("{" + body + "}")) == st2;
    RunAppend(Initial, hello + ("{" + body + "}"), world);
    RunPlain(st2, world);
    assert Run(Initial, hello + ("{" + body + "}") + world) == st2.(buffer := world);
    assert "" + world == world;
    assert Flush(st2.(buffer := world)).tokens == [Text(hello), Markup(body), Text(world)];
  }
}
