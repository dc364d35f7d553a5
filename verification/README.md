# flicksy2 text layout and pixel routines, modelled in Dafny

This project models the parts of flicksy2 that turn a dialogue script into
laid-out pages of glyphs. It also models the small pixel and colour routines
the drawing tools rely on.

- **Text layout** (`text.js`):
  - the markup tokeniser (`tokeniseScript`);
  - the compilation of tokens into glyph, style and break commands;
  - the span widener (`commandsBreakLongSpans`, with `filterToSpans` and `computeLineWidth`);
  - the greedy line and page breaker (`commandsToPages`, with its inner closures and `find`);
  - the default style handler and font lookup.
- **Pixel routines** (`blitsy.js`):
  - Bresenham line rasterisation (`lineplot`);
  - the stack-based flood fill (`floodfill`);
  - the colour conversions `hexToNumber`, `numberToHex` and `rgbToHex`.
- **Drawing import** (`editors/drawings.js`):
  - `uint32ToRGB`, `hexToRGB` and `RGBToNumber`;
  - the loop that quantises imported pixels to the project palette through a cache of masked colours.
- **Paths** (`main.js`): `pathToRootLeaf`, which cuts a folder path at its last `/`.

Pixels are 32-bit values with the red byte lowest (the little-endian ABGR
layout of a `Uint32Array` over canvas data). JavaScript's 32-bit bit
operators are spelt out in `JsNumbers`, and the string built-ins the code
calls (`substr`, `substring`, `trim`, `parseInt(·, 16)`, `toString(16)`) in
`JsStrings`.

Where the code mutates state step by step, the model is imperative:
- **Tokeniser, breaker scan, `filterToSpans`, `find` and `lineplot`** are methods with loops.
  - The tokeniser, the breaker scan, `filterToSpans` and `lineplot` are each proved equal to a fold, a recursive scan or a closed form given as a function.
  - `find` is characterised by its postconditions: the positions it visits, and the first accepted element.
  - The breaker's look-back through `find` is proved equal to a function that walks back to the last breakable glyph.
- **The whole breaker** is also a function, `Layout`, built from one function per closure. Example lemmas show where it cuts lines.
- **`commandsBreakLongSpans`** updates an array of commands in place.
- **`commandsToPages`** is a `PageBuilder` class. Its fields are the closure variables `styles`, `pages`, `page` and `currLine`, and its methods are the inner closures.
- **`floodfill` and the import loop** update pixel arrays.

## Model

| member | source | states |
|---|---|---|
| TextTokens.OpenBrace | src/scripts/text.js:158-161 | the depth rises by one; at depth 0 the pending text is flushed as a text token (if any), otherwise tokens and buffer are kept |
| TextTokens.CloseBrace | src/scripts/text.js:163-166 | the depth falls by one; leaving depth 1 flushes the pending markup as a markup token (if any), otherwise tokens and buffer are kept |
| TextTokens.NewLine | src/scripts/text.js:168-171 | the pending buffer is flushed (as markup inside braces, as text outside), then the markup token `el` follows; the buffer is emptied and the depth kept |
| TextTokens.Flush | src/scripts/text.js:173-178 | flushing empties the buffer and leaves the brace depth unchanged |
| TextTokens.Tokenise | src/scripts/text.js:153-196 | the token list built by the character loop and the final flush equals the fold of the per-character step: open brace, close brace, newline, or append to the buffer |
| TextTokens.TokensAreNonEmpty | src/scripts/text.js:173-178 | no emitted token has an empty buffer, because an empty buffer is never flushed |
| TextTokens.RunAppend | src/scripts/text.js:186-191 | tokenising a concatenation continues from the state left by its first part |
| TextTokens.RunPlain | src/scripts/text.js:186-191 | characters other than `{`, `}` and newline only extend the buffer |
| TextTokens.MarkupSegment | src/scripts/text.js:158-166 | at depth 0, `{m}` flushes pending text as a text token, emits `m` as a markup token and returns to depth 0 with an empty buffer |
| TextTokens.UnterminatedBrace | src/scripts/text.js:158-161 | an unclosed `{m` at the end of the script is still flushed as a markup token |
| TextTokens.NewLineSegment | src/scripts/text.js:168-171 | at any depth, a newline flushes the pending buffer (markup inside braces, text outside), then emits the markup token `el`, keeping the depth |
| TextTokens.TokeniseWellFormed | src/scripts/text.js:153-196 | a script assembled from plain text, braced markup and newlines tokenises into exactly the expected text and markup tokens, in order |
| TextTokens.TokeniseExample | src/scripts/text.js:153-196 | `Hello {clr=#ff0000}world` gives text `Hello `, markup `clr=#ff0000`, text `world` |
| TextCommands.TextBufferToCommands | src/scripts/text.js:198-201 | one glyph per character, in order, carrying that character, breakable exactly when it is a space |
| TextCommands.TextRoundTrip | src/scripts/text.js:198-201 | reading the characters back from the glyphs gives the text buffer |
| TextCommands.MarkupBufferToCommands | src/scripts/text.js:203-207 | a markup buffer becomes exactly one command |
| TextCommands.MarkupRoundTrip | src/scripts/text.js:203-207 | that command is not a glyph and gives back its buffer; it is a break exactly for `ep` and `el` |
| TextCommands.TokenToCommands | src/scripts/text.js:216 | a text token becomes one glyph per character, breakable exactly for spaces; a markup token becomes one non-glyph command, a break exactly for `ep` and `el` |
| TextCommands.TokensToCommands | src/scripts/text.js:210-218 | the command count is the per-token count summed, the glyphs spell the text tokens in order, and only spaces are breakable |
| TextCommands.CommandsDrawTokensText | src/scripts/text.js:210-218 | the glyphs of the compiled commands spell the text tokens, concatenated in order |
| TextCommands.CompiledBreakables | src/scripts/text.js:198-218 | in compiled commands only spaces are breakable |
| TextCommands.CommandsPerToken | src/scripts/text.js:210-218 | a text token yields one command per character and a markup token yields one |
| TextCommands.TokensToCommandsSnoc | src/scripts/text.js:216-217 | the flat map over tokens distributes over appending a token |
| TextCommands.CommandsExample | src/scripts/text.js:198-218 | `a b`, `el`, `clr=red`, `ep` compile to three glyphs (only the space breakable), a line break, a style and a page break |
| TextFont.GetFontChar | src/scripts/text.js:90-93 | a character is found exactly when the font has an entry for it, and that entry is returned |
| TextFont.ComputeLineWidth | src/scripts/text.js:348-352 | the width of a single character is its spacing, or 0 when the font lacks it |
| TextFont.ComputeLineWidthAppend | src/scripts/text.js:348-352 | the width of a concatenation is the sum of the widths of its parts |
| TextStyles.FirstIndex | src/scripts/text.js:135 | the index found holds the character and none comes before it; when none is found the character does not occur |
| TextStyles.SplitKeyValue | src/scripts/text.js:136 | the key and the value hold no `=`; the key ends and the value starts with a non-space |
| TextStyles.SplitKeyValueParts | src/scripts/text.js:136 | the key, whitespace, `=`, whitespace and value are a prefix of the style; they are the whole style exactly when no second `=` follows the first (so the value runs to the end, trailing whitespace included), and otherwise the value does not end in whitespace and is followed by whitespace and the second `=` |
| TextStyles.SplitAt | src/scripts/text.js:136 | the key is the text before the first `=` with trailing whitespace trimmed; the value is the first field of the text after it, with leading whitespace trimmed |
| TextStyles.DefaultStyleHandler | src/scripts/text.js:130-139 | `+name` sets a flag, `-name` deletes the entry, `key=value` stores the value, each leaving every other key unchanged; a style with no sign and no `=` changes nothing |
| TextStyles.SplitExample | src/scripts/text.js:136 | `k = v` splits into key `k` and value `v` |
| TextStyles.ValueToEndExample | src/scripts/text.js:136 | `k=abc` splits into key `k` and value `abc` |
| TextStyles.ValueStopsExample | src/scripts/text.js:136 | `a=b=c` splits into key `a` and value `b` |
| TextStyles.StyleFlagExample | src/scripts/text.js:130-139 | `-shk` removes a flag, `+wvy` adds one, a bare `r` changes nothing |
| TextSpans.FilterToSpans | src/scripts/text.js:358-376 | the loop's spans equal the fold that buffers non-breakable elements and closes a non-empty buffer at each breakable one and at the end |
| TextSpans.SpansFlatten | src/scripts/text.js:358-376 | every span is non-empty and holds no breakable element; the spans concatenated are the non-breakable elements in their original order |
| TextSpans.SpansSplit | src/scripts/text.js:358-376 | a breakable element cuts the input into independent halves |
| TextSpans.SpansWhole | src/scripts/text.js:358-376 | a non-empty input with no breakable element is one span |
| TextSpans.SpansNone | src/scripts/text.js:358-376 | an input of breakable elements only has no spans |
| TextSpans.SpansMembers | src/scripts/text.js:358-376 | every span element comes from the input |
| TextSpans.Find | src/scripts/text.js:378-382 | the result is `FindFrom`, the recursive walk; it visits start, start+step, … while in bounds; every visited element before the result is rejected; a result is the first accepted element with its index; no result means the walk left the array |
| TextWiden.Widen | src/scripts/text.js:327-342 | widening changes only breakable flags, and every break point stays one |
| TextWiden.CommandsBreakLongSpans | src/scripts/text.js:327-342 | the commands array becomes `Widen` of its old contents |
| TextWiden.WidenAt | src/scripts/text.js:327-342 | a glyph is marked breakable exactly when it is no break point and the glyphs of its maximal run without break points are wider than the line; every other command is unchanged |
| TextWiden.SpanWidthRange | src/scripts/text.js:334-336 | summing the spacings of a span's glyphs is the glyph width of that stretch of commands |
| TextWiden.WidenShape | src/scripts/text.js:327-342 | widening changes only breakable flags, and every break point stays one |
| TextWiden.WidenedRunsFit | src/scripts/text.js:327-342 | after widening, every stretch without a break point that ends in a glyph fits within the line width |
| TextWiden.WidenedWellBroken | src/scripts/text.js:327-342 | after widening, a break point lies between any glyph the widener marked and any later unbreakable glyph |
| TextWiden.GlyphWidthAppend | src/scripts/text.js:348-352 | glyph width is additive over concatenation |
| TextLayout.FindNextBreakIndex | src/scripts/text.js:253-268 | the result is `NextBreak`, the recursive scan; the scan stops at the first break (returning its index), at the first overflow for which a breakable glyph is found looking back (returning the last such glyph), or at the end (returning nothing); overflows passed by had no breakable glyph at or before them |
| TextLayout.LookBack | src/scripts/text.js:264-265 | walking back from the overflowing glyph gives the last breakable glyph at or before it, or nothing |
| TextLayout.LastBreakableNearest | src/scripts/text.js:264 | no breakable glyph lies between the one found and the start of the walk, and none at all when nothing is found |
| TextLayout.NoOverflowBeforeStop | src/scripts/text.js:253-268 | in widened commands, every glyph the scan passed ends within the line width |
| TextLayout.ZeroIndexConsumes | src/scripts/text.js:297-313 | a break index of 0 sits on a break or a space, which the loop then consumes |
| TextLayout.WidenedReady | src/scripts/text.js:327-342 | widening commands that are all in the font, each fit alone and break only at spaces yields commands whose unbreakable stretches fit, whose breaks are well placed, and that stay in the font and fit alone |
| TextLayout.BreakStep | src/scripts/text.js:297-313 | each line cut off by the breaker has every glyph in the font and ending within the line width, and a zero index consumes its command |
| TextLayout.PageBuilder.constructor | src/scripts/text.js:228-231 | no styles, no pages, an empty page and line 0 |
| TextLayout.PageBuilder.NewPage | src/scripts/text.js:233-237 | the current page is appended to the pages; the page and the line counter start afresh |
| TextLayout.PageBuilder.EndLine | src/scripts/text.js:243-246 | the line counter advances, and reaching the line count starts a new page (the shared state becomes `NextLine` of the old) |
| TextLayout.PageBuilder.EndPage | src/scripts/text.js:239-241 | ending lines until the counter is a multiple of the line count always flushes exactly the current page and returns to line 0 (`TurnPage`) |
| TextLayout.PageBuilder.DoBreak | src/scripts/text.js:248-251 | a line break ends the line and a page break ends the page (`AfterBreak`) |
| TextLayout.PageBuilder.ApplyStyle | src/scripts/text.js:290-292 | the handler's result becomes the style map and nothing else changes |
| TextLayout.PageBuilder.AddGlyph | src/scripts/text.js:270-284 | appends a hidden white glyph with the character's image at (offset, line × (lineHeight + 4)) carrying a snapshot of the styles, and returns the character's spacing |
| TextLayout.PageBuilder.DrawCommand | src/scripts/text.js:288-293 | a glyph appends its page glyph at the offset with the styles in force and advances the offset by its spacing; a style passes the styles through the handler; the page changes by that glyph only |
| TextLayout.PageBuilder.DrawAt | src/scripts/text.js:288-293 | one loop turn extends the drawn page and styles from the first j commands of the line to the first j+1 |
| TextLayout.PageBuilder.GenerateGlyphLine | src/scripts/text.js:286-295 | the current page grows by exactly `LineGlyphs` of the line: each glyph at x equal to the spacing of the glyphs before it, on the current line, with the styles in force when it is reached; glyphs end within the line width; finished pages are untouched and the styles become those after the line's style commands |
| TextLayout.PageBuilder.LayOutLine | src/scripts/text.js:298-313 | one loop turn draws the line before the break index, then consumes a break (applying it) or a space, or just ends the line (`LineTurn`); the remaining commands are those after the index, less the consumed command |
| TextLayout.PageBuilder.LayOutLast | src/scripts/text.js:315-316 | the last line's glyphs are appended to the current page, which becomes the last page; every command is consumed and every non-space glyph is placed |
| TextLayout.CommandsToPages | src/scripts/text.js:225-319 | the commands are widened in place; the pages are `Layout` of the widened commands; at least one page results; every glyph lands on a line below the line count with its font image, a snapshot of the styles in force, and x equal to the spacing of the glyphs before it on its line, ending within the line width; glyphs are placed in input order and every non-space glyph is placed |
| TextLayout.LayOutPages | src/scripts/text.js:297-318 | the main loop and the last line give exactly the pages of `Layout`, at least one, with the placement facts above |
| TextLayout.Advance | src/scripts/text.js:299-313 | one loop turn keeps the pages still to come equal to `Layout` continued from the new state, and shortens the remaining commands |
| TextLayout.LayoutTurn | src/scripts/text.js:299-313 | a turn at a break index continues the layout from the commands after it and the state after `LineTurn` |
| TextLayout.OneLine | src/scripts/text.js:253-318 | commands with no break whose glyphs fit the line width make one page holding one line with every glyph, spaces included |
| TextLayout.TwoGlyphsShareLine | src/scripts/text.js:253-318 | two glyphs that fit side by side are one page of one line: the first at x = 0, the second at the first's spacing |
| TextLayout.WrapAtSpace | src/scripts/text.js:261-311 | when the glyph after a space overflows, the line ends at the space, the space is dropped and the glyph starts the next line at x = 0 |
| TextLayout.PageBreakTurnsPage | src/scripts/text.js:248-306 | a page break puts the glyph after it at x = 0 on line 0 of a new page |
| TextLayout.LineBreakNextLine | src/scripts/text.js:243-306 | a line break puts the glyph after it at x = 0 on the next line of the same page |
| BlitsyLine.Prepare | src/scripts/blitsy.js:89-97 | endpoints are truncated to 32 bits and mirrored when steep, so the major axis is x with dy ≤ dx; the steps are the signs of the deltas; unmirroring gives back both endpoints |
| BlitsyLine.Lineplot | src/scripts/blitsy.js:88-114 | the points plotted, in call order, are exactly `Line`: the i-th point is i steps along the major axis and i·dy/dx steps along the minor axis, rounded to nearest with halves rounded down |
| BlitsyLine.LineLength | src/scripts/blitsy.js:88-114 | the number of points is the longer side of the bounding box plus one |
| BlitsyLine.SinglePoint | src/scripts/blitsy.js:101-103 | equal endpoints plot that single point once |
| BlitsyLine.LineEnds | src/scripts/blitsy.js:88-114 | the first point is (x0, y0) and the last is (x1, y1), both truncated to 32 bits |
| BlitsyLine.MinorEnd | src/scripts/blitsy.js:105-112 | after dx major steps, exactly dy minor steps have been taken |
| BlitsyLine.MinorStep | src/scripts/blitsy.js:107-111 | the minor coordinate advances by 0 or 1 per major step |
| BlitsyLine.LineSteps | src/scripts/blitsy.js:88-114 | consecutive points differ, and each coordinate moves by 0 or one step towards the far endpoint |
| BlitsyLine.MinorNearest | src/scripts/blitsy.js:99-112 | the minor coordinate is within half a pixel of the exact i·dy/dx |
| BlitsyLine.LineNearSegment | src/scripts/blitsy.js:88-114 | every point lies within half a pixel of the true segment, measured along the minor axis |
| BlitsyFill.Floodfill | src/scripts/blitsy.js:122-148 | afterwards, each pixel holds the colour (as a 32-bit value) exactly when it is reachable from the seed through 4-neighbours that had the seed's original value, and its old value otherwise |
| BlitsyFill.SeedReachable | src/scripts/blitsy.js:125-127 | the seed is in its own region |
| BlitsyFill.ReachableOpen | src/scripts/blitsy.js:129-135 | every reachable pixel is on the canvas and had the seed's original value |
| BlitsyFill.ReachableStep | src/scripts/blitsy.js:143-146 | the region is closed under stepping to an on-canvas 4-neighbour with the seed's original value |
| BlitsyFill.PathInside | src/scripts/blitsy.js:122-148 | any set of pixels that holds the seed and is closed under such steps contains the whole region |
| BlitsyFill.CoordIdx | src/scripts/blitsy.js:129-135 | the row-major index `y*width + x` of an on-canvas pixel is in range and decodes back to it |
| BlitsyFill.IdxCoord | src/scripts/blitsy.js:129-135 | every pixel index decodes to an on-canvas pixel that encodes back to it |
| BlitsyFill.OfferShape | src/scripts/blitsy.js:143-146 | the four enqueues keep the stack as a prefix and push only neighbours that are on the canvas, still have the original value and are not done |
| BlitsyFill.OfferHas | src/scripts/blitsy.js:129-135 | any neighbour meeting the enqueue condition is pushed |
| BlitsyFill.FillStart | src/scripts/blitsy.js:124-127 | the loop invariant holds with the seed alone on the stack and nothing done |
| BlitsyFill.Step | src/scripts/blitsy.js:138-147 | one pop, colour, mark and four enqueues keeps the loop invariant, and either one more pixel is done or fewer done pixels wait on the stack |
| BlitsyFill.FillEnd | src/scripts/blitsy.js:138 | with an empty stack, the coloured pixels are exactly the region |
| BlitsyColour.StripHash | src/scripts/blitsy.js:163 | a leading `#` is dropped and anything else is kept |
| BlitsyColour.AlphaOf | src/scripts/blitsy.js:164-165 | a given alpha is used; otherwise the 7th and 8th digits of an 8-digit string, else 255 |
| BlitsyColour.HexToNumber | src/scripts/blitsy.js:162-168 | the result is an unsigned 32-bit value |
| BlitsyColour.HexToNumberDigits | src/scripts/blitsy.js:162-168 | `#RRGGBB` (with or without `#`) and an alpha give the pixel with red lowest, then green, blue and alpha |
| BlitsyColour.HexToNumberEightDigits | src/scripts/blitsy.js:164 | with no alpha given, `#RRGGBBAA` reads its alpha from the last two digits |
| BlitsyColour.HexToNumberBytes | src/scripts/blitsy.js:162-168 | the two-digit spellings of three bytes parse back to those bytes |
| BlitsyColour.NumberToHexBytes | src/scripts/blitsy.js:174-179 | a pixel prints as the prefix and the two-digit lower-case red, green and blue bytes, ignoring alpha |
| BlitsyColour.NumberHexRoundTrip | src/scripts/blitsy.js:162-179 | parsing the printed colour gives back the pixel with alpha forced to 255 |
| BlitsyColour.HexNumberRoundTrip | src/scripts/blitsy.js:162-179 | a lower-case six-digit colour survives a parse and print |
| BlitsyColour.RgbToHexBytes | src/scripts/blitsy.js:153-156 | bytes r, g, b print as `#` and their two-digit lower-case forms, red first |
| BlitsyColour.RgbToHexNumber | src/scripts/blitsy.js:153-168 | parsing the result of rgbToHex gives the opaque pixel of those bytes |
| BlitsyColour.NamedColours | src/scripts/blitsy.js:162-168 | `#000000` with alpha 0 is 0, and `#FFFFFF` with alpha 255 is 0xFFFFFFFF |
| Drawings.Uint32ToRGB | src/scripts/editors/drawings.js:463-470 | the channels are bytes and the number is kept as given |
| Drawings.Uint32ToRGBBytes | src/scripts/editors/drawings.js:463-470 | a pixel's red, green and blue bytes are its three low bytes, lowest first |
| Drawings.HexToRGB | src/scripts/editors/drawings.js:472-480 | the packed number is an unsigned 32-bit value |
| Drawings.HexToRGBDigits | src/scripts/editors/drawings.js:472-480 | `#RRGGBB` gives those bytes as channels and the opaque pixel as the packed number |
| Drawings.HexToRGBAgrees | src/scripts/editors/drawings.js:463-480 | the channels hexToRGB parses agree with those uint32ToRGB unpacks from its number |
| Drawings.RGBToNumberOpaque | src/scripts/editors/drawings.js:482-484 | the alpha byte of the result is 0xFF |
| Drawings.RGBToNumberBytes | src/scripts/editors/drawings.js:482-484 | the result is the opaque pixel as a signed 32-bit number (negative, because alpha sets the sign bit) |
| Drawings.RGBRoundTrip | src/scripts/editors/drawings.js:463-484 | unpacking a packed colour gives back its channels |
| Drawings.NumberRGBRoundTrip | src/scripts/editors/drawings.js:463-484 | unpacking and repacking keeps the low three bytes and forces alpha to 0xFF |
| Drawings.Palette | src/scripts/editors/drawings.js:95 | the palette is every project colour but the first, each parsed by hexToRGB |
| Drawings.QuantisePixels | src/scripts/editors/drawings.js:101-113 | each pixel becomes 0 when nearly transparent, else the colour cached for its masked value (or the closest palette colour); the cache ends up holding each masked value seen |
| Drawings.QuantisePixel | src/scripts/editors/drawings.js:102-111 | one pixel's colour and the cache after it |
| Drawings.LookupRemember | src/scripts/editors/drawings.js:108-109 | lookups against the cache built during the loop answer as lookups against the starting cache |
| Drawings.RememberDomain | src/scripts/editors/drawings.js:108-109 | a masked value is cached exactly when it was cached before or an opaque pixel had it |
| Drawings.RememberValues | src/scripts/editors/drawings.js:108-109 | the cached colour of a seen masked value is what its lookup gave |
| Drawings.SameKeySameColour | src/scripts/editors/drawings.js:103-110 | two opaque pixels with the same masked value get the same unsigned 32-bit colour |
| Drawings.QuantisedImported | src/scripts/editors/drawings.js:108 | with an empty cache, quantising is choosing the closest palette colour to the masked value |
| Drawings.ImportDrawings | src/scripts/editors/drawings.js:97-113 | after the import, every pixel of every drawing is 0 or the closest palette colour to its masked value |
| Paths.Split | src/scripts/main.js:6 | `split` yields at least one piece, and no piece contains the separator |
| Paths.JoinSplit | src/scripts/main.js:6-7 | joining the pieces of a string gives the string back |
| Paths.SplitJoin | src/scripts/main.js:6-7 | splitting joined pieces that hold no separator gives the pieces back |
| Paths.LeafHasNoSlash | src/scripts/main.js:5-10 | the leaf never contains `/` |
| Paths.RootSlashLeaf | src/scripts/main.js:5-10 | for a path with a `/`, root + `/` + leaf is the path |
| Paths.NoSlashIsLeaf | src/scripts/main.js:5-10 | a path without `/` has an empty root and is all leaf |
| Paths.RootBeforeLastSlash | src/scripts/main.js:5-10 | the root is the text before the last `/` |
| Paths.TrailingSlash | src/scripts/main.js:5-10 | `a/` has root `a` and an empty leaf |

## Left out

- Canvas, DOM and image handling is not modelled: `copyImageRect`, `renderPage`, `withPixels`, renderings and file input. Pixel buffers are arrays of integers.
- `loadBasicFont` and `parseRuns` are not modelled. A font is a map from characters to an image token and a spacing.
- The `plot` callback of `lineplot` is the sequence of points it would be called with.
- Lineplot: its inputs are integers. JavaScript numbers with fractions before `|0` are not modelled.
- Floodfill: requires the seed to be on the canvas. For an off-canvas seed, the source reads a wrapped or missing pixel.
- Floodfill: only states the final pixels. The order in which the stack visits pixels is not modelled.
- CommandsToPages: requires every glyph to be in the font. It also requires each glyph alone to fit the line width, and only spaces to be breakable on entry (true of compiled commands, as CompiledBreakables shows). The source assumes these silently. Without them it crashes on a missing font character or loops forever on a glyph wider than the line.
- TextLayout.Layout: is None where the source's main loop never returns: a break index of 0 on a command it does not drop. ZeroIndexConsumes and BreakStep show this cannot happen under CommandsToPages's preconditions.
- TextLayout.PageBuilder: keeps ghost bookkeeping beside the closure variables. That bookkeeping is the placements and how many commands have been consumed.
- ComputeLineWidth: requires a non-empty string. The source's `reduce` without a seed throws on an empty one.
- Find: requires that a step of 0 never starts on a rejected element. Such a call does not terminate in the source.
- FontChar: spacing is a natural number. A font with negative spacing is not modelled.
- StyleMap: is an unordered map. A JavaScript `Map` also remembers insertion order, which nothing in the layout reads.
- DefaultStyleHandler: returns the new style map instead of mutating a `Map` in place. The breaker's handler is a function parameter that does the same.
- `colordiff.closest` is an uninterpreted function parameter. It is an external library.
- ImportDrawings: takes the palette as a parameter. Drawings.Palette shows how the source builds it.
- HexToNumber: indexes its string by code point. JavaScript's `substr`, `substring` and `length` count UTF-16 code units, so results differ for a colour string holding a character outside the Basic Multilingual Plane.
- HexToRGB: indexes its string by code point, as HexToNumber does, with the same difference.
- `HSVToRGB`, `RGBToHSV` and other floating-point colour code are not modelled.
- `textToRendering2D` is not modelled.
- The rest of each file is not part of this model: the editors' UI, the scene and map code, and project import and export.
