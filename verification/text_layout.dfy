/**
 * The line and page breaker of the text engine (commandsToPages and the
 * closures inside it): glyphs are measured left to right, a line is cut before
 * the last breakable glyph when it overflows, and every glyph is placed with
 * its own copy of the running styles.
 */
module TextLayout {
  import opened Common
  import opened TextFont
  import opened TextStyles
  import opened TextCommands
  import opened TextSpans
  import opened TextWiden

  datatype Vector2 = Vector2(x: int, y: int)

  datatype RenderOptions = RenderOptions(font: Font, lineCount: int, lineWidth: int)

  /** A glyph on a page, as commandsToPages emits it. */
  datatype PageGlyph = PageGlyph(image: Image, position: Vector2, offset: Vector2, hidden: bool, fillStyle: string, styles: StyleMap)

  /** How a style command changes the running styles. */
  type StyleHandler = (StyleMap, string) -> StyleMap

  /** Where a placed glyph came from: its character, its line on the page, and its command index. */
  datatype Placement = Placement(ch: char, line: nat, src: nat)

  /** The styles after handing every style command among the first k of cs, in order, to the handler. */
  function Styles(handler: StyleHandler, cs: seq<Command>, k: nat): StyleMap
    requires k <= |cs|
  {
    if k == 0 then map[]
    else
      var prev := Styles(handler, cs, k - 1);
      if cs[k - 1].Style? then handler(prev, cs[k - 1].style) else prev
  }

  predicate BreakableGlyph(c: Command)
  {
    c.Glyph? && c.breakable
  }

  /** The line measured up to and including command i is wider than the line width, at a glyph. */
  predicate Overflows(cs: seq<Command>, font: Font, lineWidth: int, i: nat)
    requires i < |cs|
  {
    cs[i].Glyph? && GlyphWidth(font, cs[..i + 1]) > lineWidth
  }

  predicate AllInFont(cs: seq<Command>, font: Font)
  {
    forall k :: 0 <= k < |cs| && cs[k].Glyph? ==> cs[k].ch in font.characters
  }

  /** Every glyph other than a space fits on a line by itself. */
  predicate FitsAlone(cs: seq<Command>, font: Font, lineWidth: int)
  {
    forall k :: 0 <= k < |cs| && cs[k].Glyph? && cs[k].ch != ' ' ==> CharWidth(font, cs[k].ch) <= lineWidth
  }

  /**
   * What findNextBreakIndex's scan establishes. `stop` is where the scan ended:
   * at a break (the index is the break's), at an overflow for which a breakable
   * glyph was found looking back (the index is the last such glyph's), or at the
   * end (no index). Before stop there is no break, and every overflow passed by
   * had no breakable glyph at or before it.
   */
  ghost predicate ScanOk(commands: seq<Command>, options: RenderOptions, r: Option<nat>, stop: nat)
  {
    && stop <= |commands| && (r.None? <==> stop == |commands|)
    && (forall i :: 0 <= i < stop ==> !commands[i].Break?)
    && (forall i :: 0 <= i < stop && Overflows(commands, options.font, options.lineWidth, i) ==>
          forall j :: 0 <= j <= i ==> !BreakableGlyph(commands[j]))
    && (r.Some? ==> r.value <= stop < |commands|)
    && (r.Some? && commands[stop].Break? ==> r.value == stop)
    && (r.Some? && !commands[stop].Break? ==>
          Overflows(commands, options.font, options.lineWidth, stop) && BreakableGlyph(commands[r.value])
          && forall j :: r.value < j <= stop ==> !BreakableGlyph(commands[j]))
  }

  // ---------------------------------------------------------------------------
  // The breaker as a function of the commands

  /** The last glyph marked breakable at or before index i, if any (find walking back with step -1). */
  function LastBreakable(cs: seq<Command>, i: nat): (r: Option<nat>)
    requires i < |cs|
    ensures r.Some? ==> r.value <= i && BreakableGlyph(cs[r.value])
    decreases i
  {
    if BreakableGlyph(cs[i]) then Some(i)
    else if i == 0 then None
    else LastBreakable(cs, i - 1)
  }

  /**
   * findNextBreakIndex, continued from command i with `width` measured so far:
   * a break is the index; a glyph that takes the width past the line width
   * gives the last breakable glyph before it, when there is one; style
   * commands are skipped; running off the end gives no index.
   */
  function ScanFrom(cs: seq<Command>, options: RenderOptions, i: nat, width: int): (r: Option<nat>)
    requires i <= |cs|
    ensures r.Some? ==> r.value < |cs|
    decreases |cs| - i
  {
    if i == |cs| then None
    else if cs[i].Break? then Some(i)
    else if cs[i].Style? then ScanFrom(cs, options, i + 1, width)
    else
      var next := width + CharWidth(options.font, cs[i].ch);
      if next > options.lineWidth && LastBreakable(cs, i).Some? then LastBreakable(cs, i)
      else ScanFrom(cs, options, i + 1, next)
  }

  /** findNextBreakIndex from the start of the remaining commands. */
  function NextBreak(cs: seq<Command>, options: RenderOptions): (r: Option<nat>)
    ensures r.Some? ==> r.value < |cs|
  {
    ScanFrom(cs, options, 0, 0)
  }

  /** The glyph addGlyph emits for a character at an offset on a line, with its own copy of the styles. */
  function GlyphAt(options: RenderOptions, ch: char, offset: int, line: nat, styles: StyleMap): PageGlyph
    requires ch in options.font.characters
  {
    PageGlyph(options.font.characters[ch].image, Vector2(offset, line * (options.font.lineHeight + 4)), Vector2(0, 0), true, "white", styles)
  }

  /** The styles after the style commands of a line have gone to the handler, in order. */
  function LineStyles(handler: StyleHandler, styles: StyleMap, line: seq<Command>): StyleMap
  {
    if line == [] then styles
    else
      var prev := LineStyles(handler, styles, line[..|line| - 1]);
      if line[|line| - 1].Style? then handler(prev, line[|line| - 1].style) else prev
  }

  /**
   * What generateGlyphLine adds to the page for a line drawn on `currLine`
   * from the given styles: one glyph per glyph command, spaces included, each
   * at the summed spacing of the glyphs before it and with the styles in force
   * when it is reached.
   */
  function LineGlyphs(options: RenderOptions, handler: StyleHandler, styles: StyleMap, currLine: nat, line: seq<Command>): seq<PageGlyph>
    requires AllInFont(line, options.font)
  {
    if line == [] then []
    else
      var init, c := line[..|line| - 1], line[|line| - 1];
      LineGlyphs(options, handler, styles, currLine, init)
        + (if c.Glyph? then [GlyphAt(options, c.ch, GlyphWidth(options.font, init), currLine, LineStyles(handler, styles, init))] else [])
  }

  /** The variables commandsToPages's closures share: finished pages, the current page, its line, the styles. */
  datatype LayoutState = LayoutState(pages: seq<seq<PageGlyph>>, page: seq<PageGlyph>, currLine: nat, styles: StyleMap)

  /** newPage; also endPage, whose endLine calls from a line on the page end exactly when the page turns. */
  function TurnPage(s: LayoutState): LayoutState
  {
    s.(pages := s.pages + [s.page], page := [], currLine := 0)
  }

  /** endLine: the next line, turning the page when the line count is reached. */
  function NextLine(s: LayoutState, options: RenderOptions): LayoutState
  {
    if s.currLine + 1 == options.lineCount then TurnPage(s) else s.(currLine := s.currLine + 1)
  }

  /** doBreak: a line break ends the line, a page break the page. */
  function AfterBreak(s: LayoutState, target: BreakTarget, options: RenderOptions): LayoutState
  {
    if target == Line then NextLine(s, options) else TurnPage(s)
  }

  /** generateGlyphLine on the current line. */
  function DrawLine(s: LayoutState, line: seq<Command>, options: RenderOptions, handler: StyleHandler): LayoutState
    requires AllInFont(line, options.font)
  {
    s.(page := s.page + LineGlyphs(options, handler, s.styles, s.currLine, line), styles := LineStyles(handler, s.styles, line))
  }

  /** The command the breaker stopped at is dropped: a break, or a space. */
  predicate Consumed(c: Command)
  {
    c.Break? || (c.Glyph? && c.ch == ' ')
  }

  /** One turn of the main loop at break index idx: the line before it is drawn, then the break is obeyed or the line ended. */
  function LineTurn(s: LayoutState, cmds: seq<Command>, idx: nat, options: RenderOptions, handler: StyleHandler): LayoutState
    requires idx < |cmds| && AllInFont(cmds[..idx], options.font)
  {
    var drawn := DrawLine(s, cmds[..idx], options, handler);
    if cmds[idx].Break? then AfterBreak(drawn, cmds[idx].target, options) else NextLine(drawn, options)
  }

  /**
   * commandsToPages's main loop and what follows it, from state s: turns are
   * taken while the scan finds an index, then the rest is drawn as the last
   * line and the page ended. None where the source never returns: a turn that
   * stays at index 0 on a command it does not drop repeats forever.
   */
  function LayoutFrom(cs: seq<Command>, options: RenderOptions, handler: StyleHandler, s: LayoutState): Option<seq<seq<PageGlyph>>>
    requires AllInFont(cs, options.font)
    decreases |cs|
  {
    match NextBreak(cs, options)
    case None => Some(TurnPage(DrawLine(s, cs, options, handler)).pages)
    case Some(idx) =>
      InFontSlices(cs, options.font, idx);
      var next := if Consumed(cs[idx]) then idx + 1 else idx;
      if next == 0 then None
      else LayoutFrom(cs[next..], options, handler, LineTurn(s, cs, idx, options, handler))
  }

  /** The pages commandsToPages lays out of (already widened) commands. */
  function Layout(cs: seq<Command>, options: RenderOptions, handler: StyleHandler): Option<seq<seq<PageGlyph>>>
    requires AllInFont(cs, options.font)
  {
    LayoutFrom(cs, options, handler, LayoutState([], [], 0, map[]))
  }

  lemma InFontSlices(cs: seq<Command>, font: Font, k: nat)
    requires AllInFont(cs, font) && k <= |cs|
    ensures AllInFont(cs[..k], font) && AllInFont(cs[k..], font)
    ensures k < |cs| ==> AllInFont(cs[k + 1..], font)
  {
    var t := cs[k..];
    assert forall j :: 0 <= j < |t| ==> t[j] == cs[k + j];
    if k < |cs| {
      var u := cs[k + 1..];
      assert forall j :: 0 <= j < |u| ==> u[j] == cs[k + 1 + j];
    }
  }

  /**
   * findNextBreakIndex over the remaining commands. `stop` is where the scan
   * ended: at a break, at an overflow for which a breakable glyph was found,
   * or at the end. An overflow with no breakable glyph behind it is passed by.
   */
  method FindNextBreakIndex(commands: seq<Command>, options: RenderOptions) returns (r: Option<nat>, ghost stop: nat)
    ensures r == NextBreak(commands, options)
    ensures ScanOk(commands, options, r, stop)
  {
    var width := 0;
    var i := 0;
    while i < |commands|
      invariant i <= |commands|
      invariant NextBreak(commands, options) == ScanFrom(commands, options, i, width)
      invariant width == GlyphWidth(options.font, commands[..i])
      invariant forall k :: 0 <= k < i ==> !commands[k].Break?
      invariant forall k :: 0 <= k < i && Overflows(commands, options.font, options.lineWidth, k) ==>
        forall j :: 0 <= j <= k ==> !BreakableGlyph(commands[j])
    {
      var command := commands[i];
      assert commands[..i + 1][..i] == commands[..i];
      if command.Break? {
        return Some(i), i;
      }
      if command.Glyph? {
        width := width + ComputeLineWidth(options.font, [command.ch]);
        if width > options.lineWidth {
          var back := LookBack(commands, i);
          LastBreakableNearest(commands, i);
          if back.Some? {
            return back, i;
          }
        }
      }
      i := i + 1;
    }
    return None, |commands|;
  }

  /** `find(commands, i, -1, …)` for a breakable glyph, returning only the index, as findNextBreakIndex uses it. */
  method LookBack(commands: seq<Command>, i: nat) returns (r: Option<nat>)
    requires i < |commands|
    ensures r == LastBreakable(commands, i)
  {
    var result, steps := Find(commands, i, -1, BreakableGlyph);
    if result.Some? {
      var j := result.value.1;
      forall m | j < m <= i
        ensures !BreakableGlyph(commands[m])
      {
        assert Visit(i, -1, i - m) == m;
      }
      LastBreakableAt(commands, i, j);
      return Some(j);
    }
    forall m | 0 <= m <= i
      ensures !BreakableGlyph(commands[m])
    {
      assert Visit(i, -1, i - m) == m;
    }
    LastBreakableNone(commands, i);
    return None;
  }

  /** LastBreakable finds the nearest breakable glyph: none lies after it, and none at all when it finds nothing. */
  lemma {:induction false} LastBreakableNearest(cs: seq<Command>, i: nat)
    requires i < |cs|
    ensures LastBreakable(cs, i).Some? ==> forall m :: LastBreakable(cs, i).value < m <= i ==> !BreakableGlyph(cs[m])
    ensures LastBreakable(cs, i).None? ==> forall m :: 0 <= m <= i ==> !BreakableGlyph(cs[m])
    decreases i
  {
    if !BreakableGlyph(cs[i]) && i > 0 {
      LastBreakableNearest(cs, i - 1);
    }
  }

  /** find walking back from i stops at j when j is the nearest breakable glyph. */
  lemma {:induction false} LastBreakableAt(cs: seq<Command>, i: nat, j: nat)
    requires j <= i < |cs| && BreakableGlyph(cs[j])
    requires forall m :: j < m <= i ==> !BreakableGlyph(cs[m])
    ensures LastBreakable(cs, i) == Some(j)
    decreases i
  {
    if i != j {
      LastBreakableAt(cs, i - 1, j);
    }
  }

  /** find walking back from i finds nothing when no glyph up to i is breakable. */
  lemma {:induction false} LastBreakableNone(cs: seq<Command>, i: nat)
    requires i < |cs|
    requires forall m :: 0 <= m <= i ==> !BreakableGlyph(cs[m])
    ensures LastBreakable(cs, i) == None
    decreases i
  {
    if i > 0 {
      LastBreakableNone(cs, i - 1);
    }
  }

  /** A glyph as addGlyph emits it for a placement: font image, line position, hidden, white, zero offset. */
  ghost predicate GlyphOk(g: PageGlyph, p: Placement, input: seq<Command>, options: RenderOptions, handler: StyleHandler)
  {
    && p.line < options.lineCount
    && p.src < |input| && input[p.src].Glyph? && input[p.src].ch == p.ch
    && p.ch in options.font.characters
    && g.image == options.font.characters[p.ch].image
    && g.position.y == p.line * (options.font.lineHeight + 4)
    && 0 <= g.position.x && g.position.x + CharWidth(options.font, p.ch) <= options.lineWidth
    && g.offset == Vector2(0, 0) && g.hidden && g.fillStyle == "white"
    && g.styles == Styles(handler, input, p.src)
  }

  /** Where a glyph on `line` goes after the given ones: 0 on a new line, else right after the last glyph. */
  ghost function NextX(page: seq<PageGlyph>, placed: seq<Placement>, line: nat, font: Font): int
    requires |page| == |placed|
  {
    if |page| == 0 || placed[|placed| - 1].line != line then 0
    else page[|page| - 1].position.x + CharWidth(font, placed[|placed| - 1].ch)
  }

  /**
   * A laid-out page, glyph by glyph: every glyph is well formed, lines only go
   * down the page, and each glyph starts where NextX says.
   */
  ghost predicate PageOk(page: seq<PageGlyph>, placed: seq<Placement>, input: seq<Command>, options: RenderOptions, handler: StyleHandler)
    decreases |page|
  {
    |page| == |placed| &&
    (page == [] ||
      var n := |page| - 1;
      && PageOk(page[..n], placed[..n], input, options, handler)
      && GlyphOk(page[n], placed[n], input, options, handler)
      && (n > 0 ==> placed[n - 1].line <= placed[n].line)
      && page[n].position.x == NextX(page[..n], placed[..n], placed[n].line, options.font))
  }

  ghost predicate PagesOk(pages: seq<seq<PageGlyph>>, placed: seq<seq<Placement>>, input: seq<Command>, options: RenderOptions, handler: StyleHandler)
  {
    |pages| == |placed| &&
    (pages == [] ||
      (PagesOk(pages[..|pages| - 1], placed[..|placed| - 1], input, options, handler)
       && PageOk(pages[|pages| - 1], placed[|placed| - 1], input, options, handler)))
  }

  /** The placements name command indices in increasing order, all below bound. */
  ghost predicate Ascending(placed: seq<Placement>, bound: int)
  {
    placed == [] ||
    (placed[|placed| - 1].src < bound && Ascending(placed[..|placed| - 1], placed[|placed| - 1].src))
  }

  /** The command indices the placements came from. */
  ghost function Srcs(placed: seq<Placement>): set<nat>
  {
    if placed == [] then {} else Srcs(placed[..|placed| - 1]) + {placed[|placed| - 1].src}
  }

  /** Every glyph among the first `upto` commands that is not a space was placed. */
  ghost predicate Covered(placed: seq<Placement>, input: seq<Command>, upto: nat)
  {
    forall k :: 0 <= k < upto && DrawnAt(input, k) ==> k in Srcs(placed)
  }

  /** Command k is a glyph other than a space. */
  predicate DrawnAt(input: seq<Command>, k: nat)
  {
    k < |input| && input[k].Glyph? && input[k].ch != ' '
  }

  // ---------------------------------------------------------------------------
  // The recursive definitions, read pointwise

  /** PageOk, glyph by glyph. */
  lemma PageOkPointwise(page: seq<PageGlyph>, placed: seq<Placement>, input: seq<Command>, options: RenderOptions, handler: StyleHandler)
    requires PageOk(page, placed, input, options, handler)
    ensures |page| == |placed|
    ensures forall n :: 0 <= n < |page| ==> GlyphOk(page[n], placed[n], input, options, handler)
    ensures forall n :: 0 < n < |page| ==> placed[n - 1].line <= placed[n].line
    ensures forall n :: 0 <= n < |page| ==>
      page[n].position.x == if n == 0 || placed[n - 1].line != placed[n].line then 0
        else page[n - 1].position.x + CharWidth(options.font, placed[n - 1].ch)
  {
    PageGlyphsOk(page, placed, input, options, handler);
    PageLinesAscend(page, placed, input, options, handler);
    PageOffsets(page, placed, input, options, handler);
  }

  lemma {:induction false} PageGlyphsOk(page: seq<PageGlyph>, placed: seq<Placement>, input: seq<Command>, options: RenderOptions, handler: StyleHandler)
    requires PageOk(page, placed, input, options, handler)
    ensures |page| == |placed|
    ensures forall n :: 0 <= n < |page| ==> GlyphOk(page[n], placed[n], input, options, handler)
    decreases |page|
  {
    if page != [] {
      var n := |page| - 1;
      PageGlyphsOk(page[..n], placed[..n], input, options, handler);
      assert forall m :: 0 <= m < n ==> page[..n][m] == page[m] && placed[..n][m] == placed[m];
    }
  }

  lemma {:induction false} PageLinesAscend(page: seq<PageGlyph>, placed: seq<Placement>, input: seq<Command>, options: RenderOptions, handler: StyleHandler)
    requires PageOk(page, placed, input, options, handler)
    ensures |page| == |placed|
    ensures forall n :: 0 < n < |page| ==> placed[n - 1].line <= placed[n].line
    decreases |page|
  {
    if page != [] {
      var n := |page| - 1;
      PageLinesAscend(page[..n], placed[..n], input, options, handler);
      assert forall m :: 0 <= m < n ==> placed[..n][m] == placed[m];
    }
  }

  lemma {:induction false} PageOffsets(page: seq<PageGlyph>, placed: seq<Placement>, input: seq<Command>, options: RenderOptions, handler: StyleHandler)
    requires PageOk(page, placed, input, options, handler)
    ensures |page| == |placed|
    ensures forall n :: 0 <= n < |page| ==>
      page[n].position.x == if n == 0 || placed[n - 1].line != placed[n].line then 0
        else page[n - 1].position.x + CharWidth(options.font, placed[n - 1].ch)
    decreases |page|
  {
    if page != [] {
      var n := |page| - 1;
      PageOffsets(page[..n], placed[..n], input, options, handler);
      forall m | 0 <= m < |page|
        ensures page[m].position.x == if m == 0 || placed[m - 1].line != placed[m].line then 0
          else page[m - 1].position.x + CharWidth(options.font, placed[m - 1].ch)
      {
        if m < n {
          assert page[..n][m] == page[m] && placed[..n][m] == placed[m];
          if m > 0 {
            assert page[..n][m - 1] == page[m - 1] && placed[..n][m - 1] == placed[m - 1];
          }
        } else {
          assert page[n].position.x == NextX(page[..n], placed[..n], placed[n].line, options.font);
          if n > 0 {
            assert page[..n][n - 1] == page[n - 1] && placed[..n][n - 1] == placed[n - 1];
          }
        }
      }
    }
  }

  /** PagesOk, page by page. */
  lemma {:induction false} PagesOkPointwise(pages: seq<seq<PageGlyph>>, placed: seq<seq<Placement>>, input: seq<Command>, options: RenderOptions, handler: StyleHandler)
    requires PagesOk(pages, placed, input, options, handler)
    ensures |pages| == |placed|
    ensures forall p :: 0 <= p < |pages| ==> PageOk(pages[p], placed[p], input, options, handler)
    decreases |pages|
  {
    if pages != [] {
      var n := |pages| - 1;
      PagesOkPointwise(pages[..n], placed[..n], input, options, handler);
      assert forall m :: 0 <= m < n ==> pages[..n][m] == pages[m] && placed[..n][m] == placed[m];
    }
  }

  /** Ascending, pairwise: sources strictly increase and stay below the bound. */
  lemma {:induction false} AscendingPairwise(placed: seq<Placement>, bound: int)
    requires Ascending(placed, bound)
    ensures forall n :: 0 <= n < |placed| ==> placed[n].src < bound
    ensures forall m, n :: 0 <= m < n < |placed| ==> placed[m].src < placed[n].src
    decreases |placed|
  {
    if placed != [] {
      var n := |placed| - 1;
      AscendingPairwise(placed[..n], placed[n].src);
      assert forall m :: 0 <= m < n ==> placed[..n][m] == placed[m];
    }
  }

  /** Srcs is exactly the set of sources of the placements. */
  lemma {:induction false} SrcsMembers(placed: seq<Placement>, k: nat)
    ensures k in Srcs(placed) <==> exists n :: 0 <= n < |placed| && placed[n].src == k
    decreases |placed|
  {
    if placed != [] {
      var n := |placed| - 1;
      SrcsMembers(placed[..n], k);
      assert forall m :: 0 <= m < n ==> placed[..n][m] == placed[m];
    }
  }

  /** A page stays laid out when a glyph is added where NextX puts it, on the last line or below. */
  lemma PageExtend(page: seq<PageGlyph>, placed: seq<Placement>, g: PageGlyph, p: Placement,
                   input: seq<Command>, options: RenderOptions, handler: StyleHandler)
    requires PageOk(page, placed, input, options, handler) && GlyphOk(g, p, input, options, handler)
    requires |placed| > 0 ==> placed[|placed| - 1].line <= p.line
    requires g.position.x == NextX(page, placed, p.line, options.font)
    ensures PageOk(page + [g], placed + [p], input, options, handler)
  {
    assert (page + [g])[..|page|] == page && (placed + [p])[..|placed|] == placed;
  }

  lemma NextXNonNegative(page: seq<PageGlyph>, placed: seq<Placement>, line: nat,
                         input: seq<Command>, options: RenderOptions, handler: StyleHandler)
    requires PageOk(page, placed, input, options, handler)
    ensures NextX(page, placed, line, options.font) >= 0
  {
  }

  lemma FlattenSnoc(pp: seq<seq<Placement>>, pg: seq<Placement>, p: Placement)
    ensures Flatten(pp) + (pg + [p]) == (Flatten(pp) + pg) + [p]
  {
  }

  /** Closing the current page moves its placements into the finished pages. */
  lemma FlattenNewPage(pp: seq<seq<Placement>>, pg: seq<Placement>)
    ensures Flatten(pp + [pg]) + [] == Flatten(pp) + pg
  {
    assert (pp + [pg])[..|pp|] == pp;
  }

  lemma PagesExtend(pages: seq<seq<PageGlyph>>, placed: seq<seq<Placement>>, page: seq<PageGlyph>, pl: seq<Placement>,
                    input: seq<Command>, options: RenderOptions, handler: StyleHandler)
    requires PagesOk(pages, placed, input, options, handler) && PageOk(page, pl, input, options, handler)
    ensures PagesOk(pages + [page], placed + [pl], input, options, handler)
  {
    assert (pages + [page])[..|pages|] == pages && (placed + [pl])[..|placed|] == placed;
  }

  lemma AscendingExtend(placed: seq<Placement>, bound: int, p: Placement)
    requires Ascending(placed, bound) && p.src == bound
    ensures Ascending(placed + [p], bound + 1)
  {
    assert (placed + [p])[..|placed|] == placed;
  }

  /** A command that is not a style leaves the styles as they were. */
  lemma StylesSkip(handler: StyleHandler, input: seq<Command>, k: nat)
    requires k < |input| && !input[k].Style?
    ensures Styles(handler, input, k + 1) == Styles(handler, input, k)
  {
  }

  lemma AscendingWeaken(placed: seq<Placement>, bound: int, bound': int)
    requires Ascending(placed, bound) && bound <= bound'
    ensures Ascending(placed, bound')
  {
  }

  lemma CoveredExtend(placed: seq<Placement>, input: seq<Command>, upto: nat, p: Placement)
    requires Covered(placed, input, upto) && p.src == upto
    ensures Covered(placed + [p], input, upto + 1)
  {
    assert (placed + [p])[..|placed|] == placed;
  }

  lemma CoveredSkip(placed: seq<Placement>, input: seq<Command>, upto: nat)
    requires Covered(placed, input, upto) && upto < |input|
    requires !input[upto].Glyph? || input[upto].ch == ' '
    ensures Covered(placed, input, upto + 1)
  {
    assert !DrawnAt(input, upto);
  }

  /** The state commandsToPages's closures share. */
  class PageBuilder {
    const options: RenderOptions
    const handler: StyleHandler
    /** The widened commands the builder is working through. */
    ghost const input: seq<Command>

    var styles: StyleMap
    var pages: seq<seq<PageGlyph>>
    var page: seq<PageGlyph>
    var currLine: nat

    ghost var placedPages: seq<seq<Placement>>
    ghost var placedPage: seq<Placement>
    /** How many commands have been consumed. */
    ghost var frontier: nat

    ghost predicate Valid()
      reads this
    {
      && options.lineCount >= 1
      && currLine < options.lineCount
      && frontier <= |input|
      && styles == Styles(handler, input, frontier)
      && PagesOk(pages, placedPages, input, options, handler)
      && PageOk(page, placedPage, input, options, handler)
      && (|placedPage| > 0 ==> placedPage[|placedPage| - 1].line <= currLine)
      && Ascending(Flatten(placedPages) + placedPage, frontier)
      && Covered(Flatten(placedPages) + placedPage, input, frontier)
    }

    /** The shared variables, as the breaker function sees them. */
    function State(): LayoutState
      reads this
    {
      LayoutState(pages, page, currLine, styles)
    }

    /** Nothing has been placed on the current line yet. */
    ghost predicate LineFresh()
      reads this
    {
      |placedPage| > 0 ==> placedPage[|placedPage| - 1].line < currLine
    }

    constructor (options: RenderOptions, handler: StyleHandler, ghost input: seq<Command>)
      requires options.lineCount >= 1
      ensures Valid() && LineFresh()
      ensures this.options == options && this.handler == handler && this.input == input
      ensures styles == map[] && pages == [] && page == [] && currLine == 0
      ensures placedPages == [] && placedPage == [] && frontier == 0
    {
      this.options := options;
      this.handler := handler;
      this.input := input;
      styles := map[];
      pages := [];
      page := [];
      currLine := 0;
      placedPages := [];
      placedPage := [];
      frontier := 0;
      new;
    }

    /** newPage: the current page is finished and a new one begun at line 0. */
    method NewPage()
      modifies this
      ensures pages == old(pages) + [old(page)] && page == [] && currLine == 0
      ensures placedPages == old(placedPages) + [old(placedPage)] && placedPage == []
      ensures styles == old(styles) && frontier == old(frontier)
    {
      pages := pages + [page];
      page := [];
      currLine := 0;
      placedPages := placedPages + [placedPage];
      placedPage := [];
    }

    /** endLine: the next line, or a new page after the last line of this one. */
    method EndLine()
      requires Valid()
      modifies this
      ensures Valid() && LineFresh()
      ensures State() == NextLine(old(State()), options)
      ensures old(currLine) + 1 == options.lineCount ==>
        pages == old(pages) + [old(page)] && page == [] && currLine == 0
        && placedPages == old(placedPages) + [old(placedPage)] && placedPage == []
      ensures old(currLine) + 1 < options.lineCount ==>
        pages == old(pages) && page == old(page) && currLine == old(currLine) + 1
        && placedPages == old(placedPages) && placedPage == old(placedPage)
      ensures styles == old(styles) && frontier == old(frontier)
    {
      currLine := currLine + 1;
      if currLine == options.lineCount {
        ghost var pp, pg := placedPages, placedPage;
        ghost var ps := pages;
        FlattenNewPage(pp, pg);
        PagesExtend(ps, pp, page, pg, input, options, handler);
        NewPage();
      }
    }

    /** endPage: lines are ended until a new page begins (at least one). */
    method EndPage()
      requires Valid()
      modifies this
      ensures Valid() && LineFresh()
      ensures State() == TurnPage(old(State()))
      ensures pages == old(pages) + [old(page)] && page == [] && currLine == 0
      ensures placedPages == old(placedPages) + [old(placedPage)] && placedPage == []
      ensures styles == old(styles) && frontier == old(frontier)
    {
      EndLine();
      ModBelow(currLine, options.lineCount);
      while currLine % options.lineCount != 0
        invariant Valid() && LineFresh()
        invariant styles == old(styles) && frontier == old(frontier)
        invariant currLine == 0 ==>
          pages == old(pages) + [old(page)] && page == [] && placedPages == old(placedPages) + [old(placedPage)] && placedPage == []
        invariant currLine != 0 ==>
          pages == old(pages) && page == old(page) && placedPages == old(placedPages) && placedPage == old(placedPage)
        decreases if currLine == 0 then 0 else options.lineCount - currLine + 1
      {
        EndLine();
        ModBelow(currLine, options.lineCount);
      }
    }

    /** doBreak: a line break ends the line, a page break the page. */
    method DoBreak(target: BreakTarget)
      requires Valid()
      modifies this
      ensures Valid() && LineFresh()
      ensures State() == AfterBreak(old(State()), target, options)
      ensures target == Page || old(currLine) + 1 == options.lineCount ==>
        pages == old(pages) + [old(page)] && page == [] && currLine == 0
        && placedPages == old(placedPages) + [old(placedPage)] && placedPage == []
      ensures target == Line && old(currLine) + 1 < options.lineCount ==>
        pages == old(pages) && page == old(page) && currLine == old(currLine) + 1
        && placedPages == old(placedPages) && placedPage == old(placedPage)
      ensures styles == old(styles) && frontier == old(frontier)
    {
      if target == Line {
        EndLine();
      } else {
        EndPage();
      }
    }

    /** The command at the frontier is a break or a space that is dropped without being drawn. */
    ghost method Consume()
      requires Valid() && frontier < |input|
      requires input[frontier].Break? || (input[frontier].Glyph? && input[frontier].ch == ' ')
      modifies this
      ensures Valid() && (old(LineFresh()) ==> LineFresh())
      ensures frontier == old(frontier) + 1
      ensures styles == old(styles) && pages == old(pages) && page == old(page) && currLine == old(currLine)
      ensures placedPages == old(placedPages) && placedPage == old(placedPage)
    {
      StylesSkip(handler, input, frontier);
      AscendingWeaken(Flatten(placedPages) + placedPage, frontier, frontier + 1);
      CoveredSkip(Flatten(placedPages) + placedPage, input, frontier);
      frontier := frontier + 1;
    }

    /** A style command at the frontier goes to the style handler. */
    method ApplyStyle(style: string)
      requires Valid() && frontier < |input| && input[frontier] == Style(style)
      modifies this
      ensures Valid() && (old(LineFresh()) ==> LineFresh())
      ensures styles == handler(old(styles), style) && frontier == old(frontier) + 1
      ensures pages == old(pages) && page == old(page) && currLine == old(currLine)
      ensures placedPages == old(placedPages) && placedPage == old(placedPage)
    {
      AscendingWeaken(Flatten(placedPages) + placedPage, frontier, frontier + 1);
      CoveredSkip(Flatten(placedPages) + placedPage, input, frontier);
      styles := handler(styles, style);
      frontier := frontier + 1;
    }

    /** addGlyph: the glyph at the frontier is drawn at `offset` on the current line; its spacing is returned. */
    method AddGlyph(command: Command, offset: int) returns (spacing: nat)
      requires Valid() && frontier < |input| && input[frontier] == command
      requires command.Glyph? && command.ch in options.font.characters
      requires offset == NextX(page, placedPage, currLine, options.font)
      requires offset + CharWidth(options.font, command.ch) <= options.lineWidth
      modifies this
      ensures Valid()
      ensures spacing == CharWidth(options.font, command.ch)
      ensures page == old(page) + [GlyphAt(options, command.ch, offset, currLine, styles)]
      ensures placedPage == old(placedPage) + [Placement(command.ch, currLine, old(frontier))]
      ensures frontier == old(frontier) + 1
      ensures styles == old(styles) && pages == old(pages) && currLine == old(currLine) && placedPages == old(placedPages)
    {
      var fc := options.font.characters[command.ch];
      var position := Vector2(offset, currLine * (options.font.lineHeight + 4));
      var glyph := PageGlyph(fc.image, position, Vector2(0, 0), true, "white", styles);
      ghost var p := Placement(command.ch, currLine, frontier);
      NextXNonNegative(page, placedPage, currLine, input, options, handler);
      assert GlyphOk(glyph, p, input, options, handler);
      PageExtend(page, placedPage, glyph, p, input, options, handler);
      FlattenSnoc(placedPages, placedPage, p);
      AscendingExtend(Flatten(placedPages) + placedPage, frontier, p);
      CoveredExtend(Flatten(placedPages) + placedPage, input, frontier, p);
      StylesSkip(handler, input, frontier);
      page := page + [glyph];
      placedPage := placedPage + [p];
      frontier := frontier + 1;
      spacing := fc.spacing;
    }

    /** generateGlyphLine: glyphs are drawn left to right from 0; style commands update the styles. */
    method GenerateGlyphLine(line: seq<Command>)
      requires Valid() && LineFresh()
      requires frontier + |line| <= |input| && input[frontier..frontier + |line|] == line
      requires LineReady(line, options)
      modifies this
      ensures Valid()
      ensures frontier == old(frontier) + |line|
      ensures pages == old(pages) && currLine == old(currLine) && placedPages == old(placedPages)
      ensures page == old(page) + LineGlyphs(options, handler, old(styles), currLine, line)
      ensures styles == LineStyles(handler, old(styles), line)
    {
      var offset := 0;
      ghost var start, page0, styles0 := frontier, page, styles;
      for j := 0 to |line|
        invariant Valid()
        invariant frontier == start + j
        invariant pages == old(pages) && currLine == old(currLine) && placedPages == old(placedPages)
        invariant offset == GlyphWidth(options.font, line[..j])
        invariant offset == NextX(page, placedPage, currLine, options.font)
        invariant AllInFont(line[..j], options.font)
        invariant page == page0 + LineGlyphs(options, handler, styles0, currLine, line[..j])
        invariant styles == LineStyles(handler, styles0, line[..j])
      {
        offset := DrawAt(line, j, offset, start, page0, styles0);
      }
      assert line[..|line|] == line;
    }

    /** One turn of generateGlyphLine's loop, stated over the part of the line drawn so far. */
    method DrawAt(line: seq<Command>, j: nat, offset: int, ghost start: nat, ghost page0: seq<PageGlyph>, ghost styles0: StyleMap)
      returns (next: int)
      requires Valid() && j < |line| && LineReady(line, options)
      requires frontier == start + j && start + |line| <= |input| && input[start..start + |line|] == line
      requires offset == GlyphWidth(options.font, line[..j]) && offset == NextX(page, placedPage, currLine, options.font)
      requires AllInFont(line[..j], options.font)
      requires page == page0 + LineGlyphs(options, handler, styles0, currLine, line[..j])
      requires styles == LineStyles(handler, styles0, line[..j])
      modifies this
      ensures Valid() && frontier == start + j + 1
      ensures pages == old(pages) && currLine == old(currLine) && placedPages == old(placedPages)
      ensures next == GlyphWidth(options.font, line[..j + 1]) && next == NextX(page, placedPage, currLine, options.font)
      ensures AllInFont(line[..j + 1], options.font)
      ensures page == page0 + LineGlyphs(options, handler, styles0, currLine, line[..j + 1])
      ensures styles == LineStyles(handler, styles0, line[..j + 1])
    {
      assert input[frontier] == line[j];
      WidthStep(options, line, j);
      LineStep(options, handler, styles0, currLine, line, j);
      ghost var before, drawn := page, LineGlyphs(options, handler, styles0, currLine, line[..j]);
      ghost var glyph := if line[j].Glyph? then [GlyphAt(options, line[j].ch, offset, currLine, styles)] else [];
      next := DrawCommand(line[j], offset);
      Grow(page0, before, page, drawn, LineGlyphs(options, handler, styles0, currLine, line[..j + 1]), glyph);
    }

    /**
     * One turn of commandsToPages's main loop: the commands before the break
     * index are drawn as a line, then a break command is obeyed, or the line
     * is ended (dropping a space it ended at). The remaining commands are returned.
     */
    method LayOutLine(cmds: seq<Command>, idx: nat) returns (rest: seq<Command>)
      requires Valid() && LineFresh()
      requires frontier <= |input| && cmds == input[frontier..]
      requires idx < |cmds| && LineReady(cmds[..idx], options)
      requires idx == 0 ==> cmds[0].Break? || (cmds[0].Glyph? && cmds[0].ch == ' ')
      modifies this
      ensures Valid() && LineFresh()
      ensures frontier <= |input| && rest == input[frontier..] && |rest| < |cmds|
      ensures rest == cmds[if Consumed(cmds[idx]) then idx + 1 else idx..]
      ensures State() == LineTurn(old(State()), cmds, idx, options, handler)
    {
      ghost var f := frontier;
      SliceShift(input, f, idx);
      GenerateGlyphLine(cmds[..idx]);
      rest := cmds[idx..];
      var command := rest[0];
      if command.Break? {
        DoBreak(command.target);
        Consume();
        SliceShift(input, f + idx, 1);
        rest := rest[1..];
      } else {
        if command.Glyph? && command.ch == ' ' {
          Consume();
          SliceShift(input, f + idx, 1);
          rest := rest[1..];
        }
        EndLine();
      }
    }

    /** After the loop: the remaining commands are drawn as the last line, and the page is ended. */
    method LayOutLast(cmds: seq<Command>)
      requires Valid() && LineFresh()
      requires frontier <= |input| && cmds == input[frontier..] && LineReady(cmds, options)
      modifies this
      ensures Valid() && frontier == |input| && page == [] && placedPage == [] && |pages| >= 1
      ensures Ascending(Flatten(placedPages), |input|) && Covered(Flatten(placedPages), input, |input|)
      ensures pages == old(pages) + [old(page) + LineGlyphs(options, handler, old(styles), old(currLine), cmds)]
      ensures State() == TurnPage(DrawLine(old(State()), cmds, options, handler))
    {
      assert cmds[..|cmds|] == cmds;
      GenerateGlyphLine(cmds);
      EndPage();
      assert Flatten(placedPages) + [] == Flatten(placedPages);
    }

    /** One turn of generateGlyphLine's loop: the command at the frontier is drawn, styled or dropped. */
    method DrawCommand(command: Command, offset: int) returns (next: int)
      requires Valid() && frontier < |input| && input[frontier] == command
      requires command.Glyph? ==> command.ch in options.font.characters
      requires command.Glyph? ==> offset + CharWidth(options.font, command.ch) <= options.lineWidth
      requires offset == NextX(page, placedPage, currLine, options.font)
      modifies this
      ensures Valid() && frontier == old(frontier) + 1
      ensures pages == old(pages) && currLine == old(currLine) && placedPages == old(placedPages)
      ensures next == offset + (if command.Glyph? then CharWidth(options.font, command.ch) else 0)
      ensures next == NextX(page, placedPage, currLine, options.font)
      ensures page == old(page) + (if command.Glyph? then [GlyphAt(options, command.ch, offset, currLine, old(styles))] else [])
      ensures styles == if command.Style? then handler(old(styles), command.style) else old(styles)
    {
      if command.Glyph? {
        var spacing := AddGlyph(command, offset);
        next := offset + spacing;
      } else if command.Style? {
        ApplyStyle(command.style);
        next := offset;
      } else {
        Consume();
        next := offset;
      }
    }
  }

  /** The width of a line grows by the width of each glyph added to it. */
  lemma WidthStep(options: RenderOptions, line: seq<Command>, j: nat)
    requires j < |line| && LineReady(line, options)
    ensures GlyphWidth(options.font, line[..j + 1]) == GlyphWidth(options.font, line[..j]) + (if line[j].Glyph? then CharWidth(options.font, line[j].ch) else 0)
    ensures line[j].Glyph? ==> line[j].ch in options.font.characters
    ensures line[j].Glyph? ==> GlyphWidth(options.font, line[..j + 1]) <= options.lineWidth
  {
    assert line[..j + 1][..j] == line[..j];
    assert GlyphFits(line, j, options);
  }

  /** Drawing one more command of a line adds at most its glyph, and a style command updates the styles. */
  lemma LineStep(options: RenderOptions, handler: StyleHandler, styles: StyleMap, currLine: nat, line: seq<Command>, j: nat)
    requires j < |line| && AllInFont(line, options.font)
    ensures AllInFont(line[..j], options.font) && AllInFont(line[..j + 1], options.font)
    ensures LineGlyphs(options, handler, styles, currLine, line[..j + 1]) == LineGlyphs(options, handler, styles, currLine, line[..j])
      + (if line[j].Glyph? then [GlyphAt(options, line[j].ch, GlyphWidth(options.font, line[..j]), currLine, LineStyles(handler, styles, line[..j]))] else [])
    ensures LineStyles(handler, styles, line[..j + 1]) ==
      if line[j].Style? then handler(LineStyles(handler, styles, line[..j]), line[j].style) else LineStyles(handler, styles, line[..j])
  {
    assert line[..j + 1][..j] == line[..j];
    InFontSlices(line, options.font, j);
    InFontSlices(line, options.font, j + 1);
  }

  lemma Grow<T>(start: seq<T>, before: seq<T>, after: seq<T>, a: seq<T>, b: seq<T>, g: seq<T>)
    requires before == start + a && after == before + g && b == a + g
    ensures after == start + b
  {
  }

  lemma ModBelow(x: nat, n: int)
    requires x < n
    ensures x % n == x
  {
  }

  // ---------------------------------------------------------------------------
  // Facts the breaker's main loop relies on

  lemma RunsFitSuffix(cs: seq<Command>, font: Font, lineWidth: int, d: nat)
    requires d <= |cs| && RunsFit(cs, font, lineWidth)
    ensures RunsFit(cs[d..], font, lineWidth)
  {
    var t := cs[d..];
    forall a, b | 0 <= a < b <= |t| && t[b - 1].Glyph? && (forall m :: a <= m < b ==> !CanBreak(t[m]))
      ensures GlyphWidth(font, t[a..b]) <= lineWidth
    {
      assert t[a..b] == cs[d + a..d + b];
      assert forall m :: d + a <= m < d + b ==> !CanBreak(cs[m]) by {
        forall m | d + a <= m < d + b
          ensures !CanBreak(cs[m])
        {
          assert cs[m] == t[m - d];
        }
      }
    }
  }

  lemma WellBrokenSuffix(cs: seq<Command>, d: nat)
    requires d <= |cs| && WellBroken(cs)
    ensures WellBroken(cs[d..])
  {
    var t := cs[d..];
    forall j, k | 0 <= j < k < |t| && t[j].Glyph? && t[j].breakable && t[j].ch != ' ' && t[k].Glyph? && !t[k].breakable
      ensures exists m :: j < m < k && CanBreak(t[m])
    {
      assert cs[d + j] == t[j] && cs[d + k] == t[k];
      var m :| d + j < m < d + k && CanBreak(cs[m]);
      assert t[m - d] == cs[m];
    }
  }

  /** Before the scan's stop there is no overflow: a stretch with no break point fits. */
  lemma NoOverflowBeforeStop(cs: seq<Command>, font: Font, lineWidth: int, stop: nat)
    requires stop <= |cs| && RunsFit(cs, font, lineWidth)
    requires forall i :: 0 <= i < stop ==> !cs[i].Break?
    requires forall i :: 0 <= i < stop && Overflows(cs, font, lineWidth, i) ==> forall j :: 0 <= j <= i ==> !BreakableGlyph(cs[j])
    ensures forall i :: 0 <= i < stop && cs[i].Glyph? ==> GlyphWidth(font, cs[..i + 1]) <= lineWidth
  {
    forall i | 0 <= i < stop && cs[i].Glyph?
      ensures GlyphWidth(font, cs[..i + 1]) <= lineWidth
    {
      if forall j :: 0 <= j <= i ==> !BreakableGlyph(cs[j]) {
        assert forall m :: 0 <= m < i + 1 ==> !CanBreak(cs[m]);
        assert cs[0..i + 1] == cs[..i + 1];
        assert GlyphWidth(font, cs[0..i + 1]) <= lineWidth;
      } else {
        assert !Overflows(cs, font, lineWidth, i);
      }
    }
  }

  /** The breaker can only stay in place at a break or a space, both of which it then consumes. */
  lemma ZeroIndexConsumes(cs: seq<Command>, options: RenderOptions, r: Option<nat>, stop: nat)
    requires RunsFit(cs, options.font, options.lineWidth) && WellBroken(cs)
    requires FitsAlone(cs, options.font, options.lineWidth) && AllInFont(cs, options.font)
    requires stop <= |cs| && (r.None? <==> stop == |cs|)
    requires forall i :: 0 <= i < stop ==> !cs[i].Break?
    requires r == Some(0) && stop < |cs|
    requires cs[stop].Break? ==> r.value == stop
    requires !cs[stop].Break? ==>
      Overflows(cs, options.font, options.lineWidth, stop) && BreakableGlyph(cs[0])
      && forall j :: 0 < j <= stop ==> !BreakableGlyph(cs[j])
    ensures cs[0].Break? || (cs[0].Glyph? && cs[0].ch == ' ')
  {
    assert cs[..1] == [cs[0]];
    GlyphWidthOne(options.font, cs[0]);
    if 0 < stop {
      Fence(cs, 0, stop);
    }
  }

  lemma GlyphWidthOne(font: Font, c: Command)
    ensures GlyphWidth(font, [c]) == if c.Glyph? then CharWidth(font, c.ch) else 0
  {
    assert [c][..0] == [];
  }

  /** WellBroken, at two given indices. */
  lemma Fence(cs: seq<Command>, j: nat, k: nat)
    requires WellBroken(cs) && j < k < |cs|
    ensures cs[j].Glyph? && cs[j].breakable && cs[j].ch != ' ' && cs[k].Glyph? && !cs[k].breakable ==>
      exists m :: j < m < k && CanBreak(cs[m])
  {
  }

  /**
   * commandsToPages: the commands are widened in place, then laid out into
   * pages. Every glyph lands on a line of some page, hidden and white, with its
   * font image, its own snapshot of the styles in force, and x equal to the
   * spacing of the glyphs before it on its line; no glyph passes the line width.
   * The placed glyphs are the glyphs of the commands in order, less some spaces,
   * and the pages are those the breaker function Layout gives.
   */
  method CommandsToPages(commands: array<Command>, options: RenderOptions, handler: StyleHandler)
    returns (pages: seq<seq<PageGlyph>>, ghost placed: seq<seq<Placement>>)
    requires options.lineCount >= 1
    requires AllInFont(commands[..], options.font)
    requires FitsAlone(commands[..], options.font, options.lineWidth)
    requires OnlySpacesBreakable(commands[..])
    modifies commands
    ensures commands[..] == Widen(old(commands[..]), options.font, options.lineWidth)
    ensures AllInFont(commands[..], options.font) && Layout(commands[..], options, handler) == Some(pages)
    ensures |pages| >= 1 && PagesOk(pages, placed, commands[..], options, handler)
    ensures Ascending(Flatten(placed), commands.Length)
    ensures Covered(Flatten(placed), commands[..], commands.Length)
  {
    ghost var c := commands[..];
    CommandsBreakLongSpans(commands, options.font, options.lineWidth);
    var w := commands[..];
    WidenedReady(c, options);
    pages, placed := LayOutPages(w, options, handler);
  }

  /**
   * The main loop of commandsToPages and what follows it, over the widened
   * commands: a line is drawn up to each break index the scan finds, then the
   * rest is drawn and the page ended.
   */
  method LayOutPages(w: seq<Command>, options: RenderOptions, handler: StyleHandler)
    returns (pages: seq<seq<PageGlyph>>, ghost placed: seq<seq<Placement>>)
    requires options.lineCount >= 1 && WidenedOk(w, options)
    ensures Layout(w, options, handler) == Some(pages)
    ensures |pages| >= 1 && PagesOk(pages, placed, w, options, handler)
    ensures Ascending(Flatten(placed), |w|) && Covered(Flatten(placed), w, |w|)
  {
    var b := new PageBuilder(options, handler, w);
    var cmds := w;
    var index, stop := FindNextBreakIndex(cmds, options);
    while index.Some?
      invariant b.Valid() && b.LineFresh() && b.input == w
      invariant Turning(b, w, cmds, index, stop)
      decreases |cmds|
    {
      cmds, index, stop := Advance(b, w, cmds, index, stop);
    }
    BreakStep(w, options, b.frontier, index, stop);
    assert cmds[..|cmds|] == cmds;
    ghost var s := b.State();
    b.LayOutLast(cmds);
    LayoutLast(cmds, options, handler, s);
    pages := b.pages;
    placed := b.placedPages;
  }

  /** What holds between turns of the main loop: the remaining commands, the scan's answer, and the pages still to come. */
  ghost predicate Turning(b: PageBuilder, w: seq<Command>, cmds: seq<Command>, index: Option<nat>, stop: nat)
    reads b
  {
    && b.options.lineCount >= 1 && WidenedOk(w, b.options)
    && b.frontier <= |w| && cmds == w[b.frontier..]
    && ScanOk(cmds, b.options, index, stop) && index == NextBreak(cmds, b.options)
    && AllInFont(cmds, b.options.font) && Layout(w, b.options, b.handler) == LayoutFrom(cmds, b.options, b.handler, b.State())
  }

  /** One turn of the main loop: the line up to the break index is laid out and the next index found. */
  method Advance(b: PageBuilder, w: seq<Command>, cmds: seq<Command>, index: Option<nat>, ghost stop: nat)
    returns (rest: seq<Command>, next: Option<nat>, ghost stop': nat)
    requires b.Valid() && b.LineFresh() && b.input == w
    requires Turning(b, w, cmds, index, stop) && index.Some?
    modifies b
    ensures b.Valid() && b.LineFresh()
    ensures Turning(b, w, rest, next, stop') && |rest| < |cmds|
  {
    var options, handler := b.options, b.handler;
    BreakStep(w, options, b.frontier, index, stop);
    ghost var s := b.State();
    rest := b.LayOutLine(cmds, index.value);
    LayoutTurn(cmds, options, handler, s, index.value);
    next, stop' := FindNextBreakIndex(rest, options);
  }

  /** One turn of the loop, as the breaker function takes it. */
  lemma LayoutTurn(cmds: seq<Command>, options: RenderOptions, handler: StyleHandler, s: LayoutState, idx: nat)
    requires AllInFont(cmds, options.font) && NextBreak(cmds, options) == Some(idx)
    requires idx == 0 ==> Consumed(cmds[0])
    ensures idx < |cmds| && AllInFont(cmds[..idx], options.font)
    ensures var next := if Consumed(cmds[idx]) then idx + 1 else idx;
      AllInFont(cmds[next..], options.font)
      && LayoutFrom(cmds, options, handler, s) == LayoutFrom(cmds[next..], options, handler, LineTurn(s, cmds, idx, options, handler))
  {
    InFontSlices(cmds, options.font, idx);
  }

  /** The tail after the loop, as the breaker function takes it. */
  lemma LayoutLast(cmds: seq<Command>, options: RenderOptions, handler: StyleHandler, s: LayoutState)
    requires AllInFont(cmds, options.font) && NextBreak(cmds, options) == None
    ensures LayoutFrom(cmds, options, handler, s) == Some(TurnPage(DrawLine(s, cmds, options, handler)).pages)
  {
  }

  // ---------------------------------------------------------------------------
  // Where the breaker cuts lines

  /** A scan over commands with no break whose glyphs all fit on one line finds no index. */
  lemma {:induction false} ScanFits(cs: seq<Command>, options: RenderOptions, i: nat, width: int)
    requires i <= |cs| && width == GlyphWidth(options.font, cs[..i])
    requires forall k :: 0 <= k < |cs| ==> !cs[k].Break?
    requires GlyphWidth(options.font, cs) <= options.lineWidth
    ensures ScanFrom(cs, options, i, width) == None
    decreases |cs| - i
  {
    if i < |cs| {
      assert cs[..i + 1][..i] == cs[..i];
      var next := width + (if cs[i].Glyph? then CharWidth(options.font, cs[i].ch) else 0);
      assert cs[0..i + 1] == cs[..i + 1] && cs[0..|cs|] == cs;
      GlyphWidthWithin(options.font, cs, 0, 0, i + 1, |cs|);
      ScanFits(cs, options, i + 1, next);
    }
  }

  /**
   * Commands with no break whose glyphs fit within the line width make one
   * page holding one line: every glyph, spaces included, from x = 0.
   */
  lemma OneLine(cs: seq<Command>, options: RenderOptions, handler: StyleHandler)
    requires AllInFont(cs, options.font) && forall k :: 0 <= k < |cs| ==> !cs[k].Break?
    requires GlyphWidth(options.font, cs) <= options.lineWidth
    ensures Layout(cs, options, handler) == Some([LineGlyphs(options, handler, map[], 0, cs)])
  {
    assert cs[..0] == [];
    ScanFits(cs, options, 0, 0);
    var s0 := LayoutState([], [], 0, map[]);
    LayoutLast(cs, options, handler, s0);
    var line := LineGlyphs(options, handler, map[], 0, cs);
    assert s0.page + line == line && s0.pages + [line] == [line];
  }

  /** The line of one glyph. */
  lemma OneGlyph(options: RenderOptions, handler: StyleHandler, styles: StyleMap, currLine: nat, x: char, bx: bool)
    requires x in options.font.characters
    ensures AllInFont([Glyph(x, bx)], options.font)
    ensures GlyphWidth(options.font, [Glyph(x, bx)]) == CharWidth(options.font, x)
    ensures LineGlyphs(options, handler, styles, currLine, [Glyph(x, bx)]) == [GlyphAt(options, x, 0, currLine, styles)]
    ensures LineStyles(handler, styles, [Glyph(x, bx)]) == styles
  {
    assert [Glyph(x, bx)][..0] == [];
  }

  /** A single glyph that fits is laid out on the current line, at x = 0, and ends the page. */
  lemma LastGlyph(options: RenderOptions, handler: StyleHandler, s: LayoutState, y: char)
    requires y in options.font.characters && CharWidth(options.font, y) <= options.lineWidth
    ensures AllInFont([Glyph(y, false)], options.font)
    ensures LayoutFrom([Glyph(y, false)], options, handler, s)
      == Some(s.pages + [s.page + [GlyphAt(options, y, 0, s.currLine, s.styles)]])
  {
    var rest := [Glyph(y, false)];
    OneGlyph(options, handler, s.styles, s.currLine, y, false);
    ScanFits(rest, options, 0, 0);
    LayoutLast(rest, options, handler, s);
  }

  /** Two glyphs that fit side by side share the first line of the only page, the second right after the first. */
  lemma TwoGlyphsShareLine(options: RenderOptions, handler: StyleHandler, x: char, y: char)
    requires x in options.font.characters && y in options.font.characters
    requires CharWidth(options.font, x) + CharWidth(options.font, y) <= options.lineWidth
    ensures AllInFont([Glyph(x, false), Glyph(y, false)], options.font)
    ensures Layout([Glyph(x, false), Glyph(y, false)], options, handler)
      == Some([[GlyphAt(options, x, 0, 0, map[]), GlyphAt(options, y, CharWidth(options.font, x), 0, map[])]])
  {
    var cs := [Glyph(x, false), Glyph(y, false)];
    assert cs[..1] == [Glyph(x, false)] && cs[..|cs| - 1] == cs[..1];
    OneGlyph(options, handler, map[], 0, x, false);
    assert GlyphWidth(options.font, cs) == CharWidth(options.font, x) + CharWidth(options.font, y);
    assert LineGlyphs(options, handler, map[], 0, cs)
      == [GlyphAt(options, x, 0, 0, map[]), GlyphAt(options, y, CharWidth(options.font, x), 0, map[])];
    OneLine(cs, options, handler);
  }

  /** The scan over a glyph that fits goes on to the next command. */
  lemma ScanGlyphFits(cs: seq<Command>, options: RenderOptions, i: nat, width: int)
    requires i < |cs| && cs[i].Glyph? && width + CharWidth(options.font, cs[i].ch) <= options.lineWidth
    ensures ScanFrom(cs, options, i, width) == ScanFrom(cs, options, i + 1, width + CharWidth(options.font, cs[i].ch))
  {
  }

  /**
   * A glyph that overflows the line after a space: the line ends before the
   * space, the space is dropped, and the glyph starts the next line at x = 0.
   */
  lemma WrapAtSpace(options: RenderOptions, handler: StyleHandler, x: char, y: char)
    requires x in options.font.characters && ' ' in options.font.characters && y in options.font.characters
    requires options.lineCount >= 2
    requires CharWidth(options.font, x) + CharWidth(options.font, ' ') <= options.lineWidth
    requires CharWidth(options.font, x) + CharWidth(options.font, ' ') + CharWidth(options.font, y) > options.lineWidth
    requires CharWidth(options.font, y) <= options.lineWidth
    ensures AllInFont([Glyph(x, false), Glyph(' ', true), Glyph(y, false)], options.font)
    ensures Layout([Glyph(x, false), Glyph(' ', true), Glyph(y, false)], options, handler)
      == Some([[GlyphAt(options, x, 0, 0, map[]), GlyphAt(options, y, 0, 1, map[])]])
  {
    var cs := [Glyph(x, false), Glyph(' ', true), Glyph(y, false)];
    var wx := CharWidth(options.font, x);
    ScanGlyphFits(cs, options, 0, 0);
    ScanGlyphFits(cs, options, 1, wx);
    assert LastBreakable(cs, 1) == Some(1);
    assert LastBreakable(cs, 2) == Some(1);
    assert NextBreak(cs, options) == Some(1);
    var s0 := LayoutState([], [], 0, map[]);
    assert cs[..1] == [Glyph(x, false)] && cs[2..] == [Glyph(y, false)];
    OneGlyph(options, handler, map[], 0, x, false);
    var s1 := LineTurn(s0, cs, 1, options, handler);
    assert s1 == LayoutState([], [GlyphAt(options, x, 0, 0, map[])], 1, map[]);
    LayoutTurn(cs, options, handler, s0, 1);
    LastGlyph(options, handler, s1, y);
    var line := [GlyphAt(options, x, 0, 0, map[]), GlyphAt(options, y, 0, 1, map[])];
    assert s1.page + [GlyphAt(options, y, 0, s1.currLine, s1.styles)] == line;
    assert s1.pages + [line] == [line];
  }

  /** A page break ends the page after the glyph before it; the glyph after it opens a new page. */
  lemma PageBreakTurnsPage(options: RenderOptions, handler: StyleHandler, x: char, y: char)
    requires x in options.font.characters && y in options.font.characters
    requires CharWidth(options.font, x) <= options.lineWidth && CharWidth(options.font, y) <= options.lineWidth
    ensures AllInFont([Glyph(x, false), Break(Page), Glyph(y, false)], options.font)
    ensures Layout([Glyph(x, false), Break(Page), Glyph(y, false)], options, handler)
      == Some([[GlyphAt(options, x, 0, 0, map[])], [GlyphAt(options, y, 0, 0, map[])]])
  {
    var cs := [Glyph(x, false), Break(Page), Glyph(y, false)];
    ScanGlyphFits(cs, options, 0, 0);
    assert NextBreak(cs, options) == Some(1);
    var s0 := LayoutState([], [], 0, map[]);
    assert cs[..1] == [Glyph(x, false)] && cs[2..] == [Glyph(y, false)];
    OneGlyph(options, handler, map[], 0, x, false);
    var s1 := LineTurn(s0, cs, 1, options, handler);
    assert s1 == LayoutState([[GlyphAt(options, x, 0, 0, map[])]], [], 0, map[]);
    LayoutTurn(cs, options, handler, s0, 1);
    LastGlyph(options, handler, s1, y);
    var line := [GlyphAt(options, y, 0, 0, map[])];
    assert s1.page + [GlyphAt(options, y, 0, s1.currLine, s1.styles)] == line;
    assert s1.pages + [line] == [[GlyphAt(options, x, 0, 0, map[])], line];
  }

  /** A line break moves the glyph after it to the next line of the same page, at x = 0. */
  lemma LineBreakNextLine(options: RenderOptions, handler: StyleHandler, x: char, y: char)
    requires x in options.font.characters && y in options.font.characters && options.lineCount >= 2
    requires CharWidth(options.font, x) <= options.lineWidth && CharWidth(options.font, y) <= options.lineWidth
    ensures AllInFont([Glyph(x, false), Break(Line), Glyph(y, false)], options.font)
    ensures Layout([Glyph(x, false), Break(Line), Glyph(y, false)], options, handler)
      == Some([[GlyphAt(options, x, 0, 0, map[]), GlyphAt(options, y, 0, 1, map[])]])
  {
    var cs := [Glyph(x, false), Break(Line), Glyph(y, false)];
    ScanGlyphFits(cs, options, 0, 0);
    assert NextBreak(cs, options) == Some(1);
    var s0 := LayoutState([], [], 0, map[]);
    assert cs[..1] == [Glyph(x, false)] && cs[2..] == [Glyph(y, false)];
    OneGlyph(options, handler, map[], 0, x, false);
    var s1 := LineTurn(s0, cs, 1, options, handler);
    assert s1 == LayoutState([], [GlyphAt(options, x, 0, 0, map[])], 1, map[]);
    LayoutTurn(cs, options, handler, s0, 1);
    LastGlyph(options, handler, s1, y);
    var line := [GlyphAt(options, x, 0, 0, map[]), GlyphAt(options, y, 0, 1, map[])];
    assert s1.page + [GlyphAt(options, y, 0, s1.currLine, s1.styles)] == line;
    assert s1.pages + [line] == [line];
  }

  /** What the breaker relies on in the widened commands. */
  ghost predicate WidenedOk(w: seq<Command>, options: RenderOptions)
  {
    && RunsFit(w, options.font, options.lineWidth) && WellBroken(w)
    && AllInFont(w, options.font) && FitsAlone(w, options.font, options.lineWidth)
  }

  /** Widening commands that are in the font, fit alone and break only at spaces gives what the breaker needs. */
  lemma WidenedReady(c: seq<Command>, options: RenderOptions)
    requires AllInFont(c, options.font) && FitsAlone(c, options.font, options.lineWidth) && OnlySpacesBreakable(c)
    ensures WidenedOk(Widen(c, options.font, options.lineWidth), options)
  {
    var w := Widen(c, options.font, options.lineWidth);
    WidenedRunsFit(c, options.font, options.lineWidth);
    WidenedWellBroken(c, options.font, options.lineWidth);
    WidenShape(c, options.font, options.lineWidth);
    assert AllInFont(w, options.font) && FitsAlone(w, options.font, options.lineWidth);
  }

  /**
   * One turn of the breaker's loop, from the widened commands' point of view:
   * the line before the break index fits and is drawable, and a zero index
   * sits on a break or a space.
   */
  lemma BreakStep(w: seq<Command>, options: RenderOptions, f: nat, r: Option<nat>, stop: nat)
    requires WidenedOk(w, options) && f <= |w|
    requires ScanOk(w[f..], options, r, stop)
    ensures var cs := w[f..];
      var idx := if r.Some? then r.value else |cs|;
      idx <= |cs| && LineReady(cs[..idx], options)
      && (r == Some(0) ==> cs[0].Break? || (cs[0].Glyph? && cs[0].ch == ' '))
  {
    SuffixFacts(w, options, f);
    var cs := w[f..];
    var idx := if r.Some? then r.value else |cs|;
    NoOverflowBeforeStop(cs, options.font, options.lineWidth, stop);
    LineFits(cs, options, idx, stop);
    if r == Some(0) {
      ZeroIndexConsumes(cs, options, r, stop);
    }
  }

  /** A line generateGlyphLine can draw: every glyph is in the font and ends within the line width. */
  ghost predicate LineReady(line: seq<Command>, options: RenderOptions)
  {
    AllInFont(line, options.font) && forall j :: 0 <= j < |line| ==> GlyphFits(line, j, options)
  }

  /** A glyph at j ends within the line width, measured from the start of the line. */
  ghost predicate GlyphFits(line: seq<Command>, j: nat, options: RenderOptions)
    requires j < |line|
  {
    line[j].Glyph? ==> GlyphWidth(options.font, line[..j + 1]) <= options.lineWidth
  }

  /** What the suffix of the widened commands at f inherits from the whole. */
  lemma SuffixFacts(w: seq<Command>, options: RenderOptions, f: nat)
    requires f <= |w|
    requires RunsFit(w, options.font, options.lineWidth) && WellBroken(w)
    requires AllInFont(w, options.font) && FitsAlone(w, options.font, options.lineWidth)
    ensures RunsFit(w[f..], options.font, options.lineWidth) && WellBroken(w[f..])
    ensures AllInFont(w[f..], options.font) && FitsAlone(w[f..], options.font, options.lineWidth)
  {
    RunsFitSuffix(w, options.font, options.lineWidth, f);
    WellBrokenSuffix(w, f);
    assert forall k :: 0 <= k < |w| - f ==> w[f..][k] == w[f + k];
  }

  /** Dropping k more commands from the suffix at f. */
  lemma SliceShift(w: seq<Command>, f: nat, k: nat)
    requires f + k <= |w|
    ensures w[f..][k..] == w[f + k..]
    ensures w[f..][..k] == w[f..f + k]
  {
  }

  /** The glyphs of a line cut at or before the scan's stop all fit. */
  lemma LineFits(cs: seq<Command>, options: RenderOptions, idx: nat, stop: nat)
    requires idx <= stop <= |cs| && AllInFont(cs, options.font)
    requires forall i :: 0 <= i < stop && cs[i].Glyph? ==> GlyphWidth(options.font, cs[..i + 1]) <= options.lineWidth
    ensures LineReady(cs[..idx], options)
  {
    forall j | 0 <= j < idx
      ensures GlyphFits(cs[..idx], j, options)
    {
      assert cs[..idx][..j + 1] == cs[..j + 1];
    }
  }
}
