/** The C++ renderer (src/main.cpp): plain text, one glyph per pixel of a
  * flat RGB byte buffer with three bytes per pixel, using the glyph ramp
  * in reverse order; only the mode "-h" drops odd rows. */
module CppRender {
  import opened Palette
  import opened Glyphs
  import opened Text
  import Frames

  /** `asciiChars`: the ramp of main.py and main.go, densest first. */
  const CppChars: string := "#@%*+=-:. "

  lemma RampReversed()
    ensures |CppChars| == |AsciiChars|
    ensures forall i :: 0 <= i < |CppChars| ==> CppChars[i] == AsciiChars[|AsciiChars| - 1 - i]
  {
  }

  /** `(r + g + b) / 3`: the mean of the three channels, rounded down. It
    * lies between the darkest and the brightest channel, and a grey pixel
    * keeps its value. */
  function Gray(r: byte, g: byte, b: byte): (gray: byte)
    ensures r <= gray || g <= gray || b <= gray
    ensures gray <= r || gray <= g || gray <= b
    ensures r == g == b ==> gray == r
  {
    (r + g + b) / 3
  }

  /** `asciiChars[gray * (asciiChars.size() - 1) / 255]`: since the ramp is
    * reversed, the glyph is the mirror image of the one main.py and
    * main.go pick for the same brightness. */
  function Glyph(gray: byte): (c: char)
    ensures c in CppChars
    ensures c == AsciiChars[|AsciiChars| - 1 - GlyphIndex(gray)]
  {
    RampReversed();
    CppChars[GlyphIndex(gray)]
  }

  /** Black is drawn densest and white as a blank: the opposite of the
    * Python and Go renderers. */
  lemma GlyphEnds()
    ensures Glyph(0) == '#' && Glyph(255) == ' '
  {
  }

  /** The mode test of `convertToASCII`: only the exact string "-h". */
  predicate SkipsOddRows(mode: string)
  {
    mode == "-h"
  }

  /** `(y * imgWidth + x) * 3`: where the red byte of pixel (x, y) sits in
    * a buffer of `imgWidth * height` pixels. It and the two bytes after it
    * are inside the buffer. */
  function Offset(imgWidth: nat, height: nat, x: nat, y: nat): (idx: nat)
    requires x < imgWidth && y < height
    ensures idx + 2 < imgWidth * height * 3
  {
    Frames.RowInGrid(y, height, imgWidth);
    (y * imgWidth + x) * 3
  }

  /** The glyph of pixel (x, y). */
  function PixelGlyph(img: seq<byte>, imgWidth: nat, height: nat, x: nat, y: nat): (c: char)
    requires |img| == imgWidth * height * 3 && x < imgWidth && y < height
    ensures c in CppChars
  {
    var idx := Offset(imgWidth, height, x, y);
    Glyph(Gray(img[idx], img[idx + 1], img[idx + 2]))
  }

  /** The glyphs of the first `width` pixels of row `y`. */
  function Line(img: seq<byte>, width: nat, height: nat, imgWidth: nat, y: nat): string
    requires |img| == imgWidth * height * 3 && width <= imgWidth && y < height
  {
    seq(width, x requires 0 <= x < width => PixelGlyph(img, imgWidth, height, x, y))
  }

  /** The lines of the first `h` rows. */
  function Lines(img: seq<byte>, width: nat, height: nat, imgWidth: nat, h: nat): seq<string>
    requires |img| == imgWidth * height * 3 && width <= imgWidth && h <= height
  {
    seq(h, y requires 0 <= y < h => Line(img, width, height, imgWidth, y))
  }

  /** One more pixel extends the line built so far by that pixel's glyph. */
  lemma LinePrefixSnoc(img: seq<byte>, width: nat, height: nat, imgWidth: nat, y: nat, x: nat)
    requires |img| == imgWidth * height * 3 && x < width <= imgWidth && y < height
    ensures var line := Line(img, width, height, imgWidth, y);
      var idx := Offset(imgWidth, height, x, y);
      line[..x + 1] == line[..x] + [CppChars[GlyphIndex(Gray(img[idx], img[idx + 1], img[idx + 2]))]]
  {
    var line := Line(img, width, height, imgWidth, y);
    assert line[x] == PixelGlyph(img, imgWidth, height, x, y);
  }

  /** One more row appends that row's line. */
  lemma LinesSnoc(img: seq<byte>, width: nat, height: nat, imgWidth: nat, y: nat)
    requires |img| == imgWidth * height * 3 && width <= imgWidth && y < height
    ensures Lines(img, width, height, imgWidth, y + 1)
      == Lines(img, width, height, imgWidth, y) + [Line(img, width, height, imgWidth, y)]
  {
  }

  /** What `convertToASCII` returns. */
  function Ascii(img: seq<byte>, width: nat, height: nat, imgWidth: nat, mode: string): string
    requires |img| == imgWidth * height * 3 && width <= imgWidth
  {
    Unlines(Frames.Keep(Lines(img, width, height, imgWidth, height), SkipsOddRows(mode)))
  }

  /** The inner loop of `convertToASCII`: the glyphs of the first `width`
    * pixels of row `y`, appended one by one to `asciiArt`. */
  method AppendLine(asciiArt: string, img: seq<byte>, width: nat, height: nat, imgWidth: nat, y: nat)
    returns (extended: string)
    requires |img| == imgWidth * height * 3 && width <= imgWidth && y < height
    ensures extended == asciiArt + Line(img, width, height, imgWidth, y)
  {
    ghost var line := Line(img, width, height, imgWidth, y);
    extended := asciiArt;
    for x := 0 to width
      invariant extended == asciiArt + line[..x]
    {
      var idx := Offset(imgWidth, height, x, y);
      var r := img[idx];
      var g := img[idx + 1];
      var b := img[idx + 2];
      var gray := Gray(r, g, b);
      var charIndex := GlyphIndex(gray);
      LinePrefixSnoc(img, width, height, imgWidth, y, x);
      extended := extended + [CppChars[charIndex]];
    }
    assert line[..width] == line;
  }

  /** `convertToASCII`: for each row not skipped, append the glyph of each
    * of its first `width` pixels, then a newline. The buffer holds
    * `imgWidth * height` pixels and the rendered width does not exceed
    * `imgWidth` (the caller passes the resized buffer and its own width),
    * so every byte read is inside the buffer. */
  method ConvertToAscii(img: seq<byte>, width: nat, height: nat, imgWidth: nat, mode: string)
    returns (asciiArt: string)
    requires |img| == imgWidth * height * 3 && width <= imgWidth
    ensures asciiArt == Ascii(img, width, height, imgWidth, mode)
  {
    asciiArt := "";
    ghost var skip := SkipsOddRows(mode);
    for y := 0 to height
      invariant asciiArt == Unlines(Frames.Keep(Lines(img, width, height, imgWidth, y), skip))
    {
      ghost var done := Lines(img, width, height, imgWidth, y);
      LinesSnoc(img, width, height, imgWidth, y);
      Frames.KeptTextSnoc(done, Line(img, width, height, imgWidth, y), skip);
      if mode == "-h" && y % 2 == 1 {
        continue;
      }
      asciiArt := AppendLine(asciiArt, img, width, height, imgWidth, y);
      asciiArt := asciiArt + "\n";
    }
  }

  /** A line holds `width` ramp glyphs and no newline. */
  lemma LineOverRamp(img: seq<byte>, width: nat, height: nat, imgWidth: nat, y: nat)
    requires |img| == imgWidth * height * 3 && width <= imgWidth && y < height
    ensures var line := Line(img, width, height, imgWidth, y);
      |line| == width && OverAlphabet(line, CppChars) && '\n' !in line
  {
    var line := Line(img, width, height, imgWidth, y);
    forall c | c in line
      ensures c in CppChars
    {
      var x :| 0 <= x < width && line[x] == c;
    }
  }

  /** The shape of the text: `height` lines, or `(height + 1) / 2` under
    * "-h"; each line is exactly `width` glyphs, glyph `x` of line `i`
    * being that of pixel (x, y) for the row y = i (or 2i under "-h"); and
    * the text holds nothing but ramp glyphs and newlines. */
  lemma AsciiShape(img: seq<byte>, width: nat, height: nat, imgWidth: nat, mode: string)
    requires |img| == imgWidth * height * 3 && width <= imgWidth
    ensures var text := Ascii(img, width, height, imgWidth, mode);
      var skip := SkipsOddRows(mode);
      var lines := SplitLines(text);
      |lines| == Frames.RowCount(height, skip) &&
      |text| == Frames.RowCount(height, skip) * (width + 1) &&
      (forall c :: c in text ==> c == '\n' || c in CppChars) &&
      forall i :: 0 <= i < |lines| ==>
        Frames.SourceRow(i, skip) < height && |lines[i]| == width &&
        forall x :: 0 <= x < width ==> lines[i][x] == PixelGlyph(img, imgWidth, height, x, Frames.SourceRow(i, skip))
  {
    var skip := SkipsOddRows(mode);
    var kept := Frames.Keep(Lines(img, width, height, imgWidth, height), skip);
    forall i | 0 <= i < |kept|
      ensures Frames.SourceRow(i, skip) < height
      ensures kept[i] == Line(img, width, height, imgWidth, Frames.SourceRow(i, skip))
      ensures '\n' !in kept[i] && |kept[i]| == width && OverAlphabet(kept[i], CppChars)
    {
      LineOverRamp(img, width, height, imgWidth, Frames.SourceRow(i, skip));
    }
    SplitUnlines(kept);
    UnlinesLength(kept, width);
    UnlinesAlphabet(kept, CppChars);
  }
}
