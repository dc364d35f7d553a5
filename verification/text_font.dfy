/** The bitmap font the text engine measures and draws with. */
module TextFont {
  import opened Common

  /** A glyph image; the layout only carries it around, never looks inside. */
  datatype Image = Image(id: nat)

  datatype FontChar = FontChar(codepoint: char, image: Image, spacing: nat)

  datatype Font = Font(name: string, lineHeight: int, characters: map<char, FontChar>)

  /** getFontChar: the font entry for a character, if the font has one. */
  function GetFontChar(font: Font, c: char): (r: Option<FontChar>)
    ensures r.Some? <==> c in font.characters
    ensures r.Some? ==> r.value == font.characters[c]
  {
    if c in font.characters then Some(font.characters[c]) else None
  }

  /** The advance width computeLineWidth gives one character: its spacing, or 0 if the font lacks it. */
  function CharWidth(font: Font, c: char): nat
  {
    match GetFontChar(font, c)
    case Some(fc) => fc.spacing
    case None => 0
  }

  /**
   * computeLineWidth: the summed advance widths of a non-empty string
   * (the source reduces without an initial value, which fails on "").
   */
  function ComputeLineWidth(font: Font, line: string): (r: nat)
    requires |line| > 0
    ensures |line| == 1 ==> r == CharWidth(font, line[0])
  {
    if |line| == 1 then CharWidth(font, line[0])
    else ComputeLineWidth(font, line[..|line| - 1]) + CharWidth(font, line[|line| - 1])
  }

  /** Widths add up over concatenation. */
  lemma {:induction false} ComputeLineWidthAppend(font: Font, a: string, b: string)
    requires |a| > 0 && |b| > 0
    ensures ComputeLineWidth(font, a + b) == ComputeLineWidth(font, a) + ComputeLineWidth(font, b)
    decreases |b|
  {
    if |b| == 1 {
      assert (a + b)[..|a + b| - 1] == a;
    } else {
      assert (a + b)[..|a + b| - 1] == a + b[..|b| - 1];
      ComputeLineWidthAppend(font, a, b[..|b| - 1]);
    }
  }
}
