/** The brightness-to-glyph mapping shared by the three renderers: a
  * brightness in 0..255 picks one of ten glyphs by the linear index
  * `gray * 9 / 255`. */
module Glyphs {
  import opened Palette

  /** The ramp of main.py and main.go, from sparsest to densest. */
  const AsciiChars: string := " .:-=+*%@#"

  /** `gray * (len(ASCII_CHARS) - 1) // 255`: the ramp position of a
    * brightness, the brightness range cut into equal bands. */
  function GlyphIndex(gray: byte): (i: nat)
    ensures i < |AsciiChars|
    ensures i * 255 <= gray * (|AsciiChars| - 1) < i * 255 + 255
  {
    gray * (|AsciiChars| - 1) / 255
  }

  /** A brighter pixel never gets a sparser glyph. */
  lemma GlyphIndexMonotone(a: byte, b: byte)
    requires a <= b
    ensures GlyphIndex(a) <= GlyphIndex(b)
  {
  }

  /** Black takes the first glyph, white the last. */
  lemma GlyphIndexEnds()
    ensures GlyphIndex(0) == 0 && AsciiChars[GlyphIndex(0)] == ' '
    ensures GlyphIndex(255) == 9 && AsciiChars[GlyphIndex(255)] == '#'
  {
  }

  /** The darkest brightness that reaches ramp position `i`. */
  function FirstGrayOf(i: nat): (gray: byte)
    requires i < |AsciiChars|
    ensures GlyphIndex(gray) == i
    ensures gray > 0 ==> GlyphIndex(gray - 1) < i
  {
    (i * 255 + 8) / 9
  }

  /** Every glyph of the ramp is used by some brightness. */
  lemma EveryGlyphUsed(i: nat)
    requires i < |AsciiChars|
    ensures exists gray: byte :: GlyphIndex(gray) == i
  {
    var gray := FirstGrayOf(i);
    assert GlyphIndex(gray) == i;
  }
}
