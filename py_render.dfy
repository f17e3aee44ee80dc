/** The Python renderer (main.py): every pixel becomes its ramp glyph
  * wrapped in an SGR escape that sets the foreground to the pixel's
  * 256-colour palette slot and resets styling right after the glyph; the
  * mode string selects the compact layout that drops odd rows; the file
  * extension selects the still-image path. */
module PyRender {
  import opened Palette
  import opened Glyphs
  import opened Text
  import Frames

  datatype Option<T> = None | Some(value: T)

  /** The mode test of `resize_image` and `image_to_ascii_colored`: an
    * exact match against three literals. */
  predicate IsHackMode(mode: string)
  {
    mode in ["hack", "-h", "--mode=hack"]
  }

  /** A rendered cell: the glyph and the palette slot it is drawn in. */
  datatype Cell = Cell(glyph: char, code: nat)

  /** ESC [ 38 ; 5 ; - select a foreground colour from the 256-colour palette. */
  const SetForeground: string := "\U{1B}[38;5;"

  /** ESC [ 0 m - reset all styling. */
  const ResetStyle: string := "\U{1B}[0m"

  /** The text of one cell: `f"\x1b[38;5;{color_code}m{char}\x1b[0m"`. */
  function Sgr(c: Cell): (s: string)
    ensures |s| == |SetForeground| + |Decimal(c.code)| + 2 + |ResetStyle|
    ensures s[..|SetForeground|] == SetForeground
    ensures s[|s| - |ResetStyle| - 1] == c.glyph && s[|s| - |ResetStyle|..] == ResetStyle
  {
    SetForeground + Decimal(c.code) + "m" + [c.glyph] + ResetStyle
  }

  /** The text of a row of cells, left to right. */
  function SgrRow(cells: seq<Cell>): string
  {
    if cells == [] then "" else Sgr(cells[0]) + SgrRow(cells[1..])
  }

  lemma {:induction false} SgrRowSnoc(cells: seq<Cell>, c: Cell)
    ensures SgrRow(cells + [c]) == SgrRow(cells) + Sgr(c)
  {
    if cells != [] {
      assert (cells + [c])[1..] == cells[1..] + [c];
      SgrRowSnoc(cells[1..], c);
    }
  }

  /** Reads one cell from the front of `s`: the escape that selects the
    * colour, its decimal slot number, `m`, the glyph and the reset.
    * Gives the cell and the number of characters it took. */
  function ParseCellPrefix(s: string): (r: Option<(Cell, nat)>)
    ensures r.Some? ==> 0 < r.value.1 <= |s|
  {
    if |s| < |SetForeground| || s[..|SetForeground|] != SetForeground then None
    else
      var rest := s[|SetForeground|..];
      if 'm' !in rest then None
      else
        var j := IndexOf(rest, 'm');
        var digits := rest[..j];
        if j == 0 || !AllDigits(digits) || |rest| < j + 2 + |ResetStyle|
           || rest[j + 2..j + 2 + |ResetStyle|] != ResetStyle then None
        else Some((Cell(rest[j + 1], DecimalValue(digits)), |SetForeground| + j + 2 + |ResetStyle|))
  }

  /** Reads a whole row of cells; fails unless the text is cells and
    * nothing else. */
  function ParseRow(s: string): Option<seq<Cell>>
    decreases |s|
  {
    if s == [] then Some([])
    else
      match ParseCellPrefix(s)
      case None => None
      case Some((c, n)) =>
        match ParseRow(s[n..])
        case None => None
        case Some(cells) => Some([c] + cells)
  }

  /** A run of digits followed by `m`: the first `m` ends the digits. */
  lemma DigitsThenM(d: string, tail: string)
    requires AllDigits(d)
    ensures var text := d + ("m" + tail);
      'm' in text && IndexOf(text, 'm') == |d| && text[..|d|] == d && text[|d| + 1..] == tail
  {
    var text := d + ("m" + tail);
    assert text[|d|] == 'm';
  }

  /** A cell's text followed by more text, grouped as the escape and
    * what comes after it. */
  lemma SgrRegrouped(c: Cell, rest: string)
    ensures Sgr(c) + rest
      == SetForeground + (Decimal(c.code) + ("m" + ([c.glyph] + ResetStyle + rest)))
  {
  }

  /** Where the parts sit after the colour escape: the digits up to the
    * first `m`, then the glyph and the reset. */
  lemma CellBodyLayout(d: string, glyph: char, rest: string)
    requires AllDigits(d)
    ensures var body := d + ("m" + ([glyph] + ResetStyle + rest));
      'm' in body && IndexOf(body, 'm') == |d| && body[..|d|] == d &&
      |d| + 2 + |ResetStyle| <= |body| && body[|d| + 1] == glyph &&
      body[|d| + 2..|d| + 2 + |ResetStyle|] == ResetStyle
  {
    var tail := [glyph] + ResetStyle + rest;
    DigitsThenM(d, tail);
    assert tail[1..1 + |ResetStyle|] == ResetStyle;
  }

  /** Any text laid out as a cell is read as that cell. */
  lemma ParseLaidOutCell(s: string, d: string, glyph: char)
    requires 1 <= |d| && AllDigits(d)
    requires |SetForeground| <= |s| && s[..|SetForeground|] == SetForeground
    requires var body := s[|SetForeground|..];
      'm' in body && IndexOf(body, 'm') == |d| && body[..|d|] == d &&
      |d| + 2 + |ResetStyle| <= |body| && body[|d| + 1] == glyph &&
      body[|d| + 2..|d| + 2 + |ResetStyle|] == ResetStyle
    ensures ParseCellPrefix(s) == Some((Cell(glyph, DecimalValue(d)), |SetForeground| + |d| + 2 + |ResetStyle|))
  {
  }

  /** A cell's text is read back as that cell, whatever follows it. */
  lemma ParseCellSgr(c: Cell, rest: string)
    ensures ParseCellPrefix(Sgr(c) + rest) == Some((c, |Sgr(c)|))
  {
    var d := Decimal(c.code);
    var body := d + ("m" + ([c.glyph] + ResetStyle + rest));
    SgrRegrouped(c, rest);
    assert (SetForeground + body)[..|SetForeground|] == SetForeground;
    assert (SetForeground + body)[|SetForeground|..] == body;
    CellBodyLayout(d, c.glyph, rest);
    DecimalRoundTrip(c.code);
    ParseLaidOutCell(SetForeground + body, d, c.glyph);
  }

  /** Every row of cells is read back exactly: each cell is one colour
    * escape, its glyph and a reset, with nothing between cells. */
  lemma {:induction false} ParseSgrRow(cells: seq<Cell>)
    ensures ParseRow(SgrRow(cells)) == Some(cells)
  {
    if cells != [] {
      var s := SgrRow(cells);
      ParseCellSgr(cells[0], SgrRow(cells[1..]));
      assert s[|Sgr(cells[0])|..] == SgrRow(cells[1..]);
      ParseSgrRow(cells[1..]);
      assert [cells[0]] + cells[1..] == cells;
    }
  }

  /** A row of cells contains no newline when no glyph is one. */
  lemma {:induction false} SgrRowHasNoNewline(cells: seq<Cell>)
    requires forall i :: 0 <= i < |cells| ==> cells[i].glyph in AsciiChars
    ensures '\n' !in SgrRow(cells)
  {
    if cells != [] {
      var d := Decimal(cells[0].code);
      assert '\n' !in d;
      SgrRowHasNoNewline(cells[1..]);
    }
  }

  /** The cell of one pixel: the ramp glyph of its brightness and its
    * palette slot. The brightness `int(0.2126 r + 0.7152 g + 0.0722 b)` is
    * the parameter `luma`. */
  function PixelCell(p: Rgb, luma: Rgb -> byte): (c: Cell)
    ensures c.glyph in AsciiChars && 16 <= c.code <= 255
    ensures p.r == p.g == p.b ==> c.code == 16 || c.code == 231 || c.code >= 232
  {
    Cell(AsciiChars[GlyphIndex(luma(p))], RgbToAnsi256(p.r, p.g, p.b))
  }

  /** `pixels[y * width + x]`: the pixel at column `x` of row `y` of an
    * image listed row by row. */
  function PixelAt(pixels: seq<Rgb>, width: nat, height: nat, x: nat, y: nat): (p: Rgb)
    requires |pixels| == width * height && x < width && y < height
    ensures p in pixels
  {
    Frames.RowInGrid(y, height, width);
    pixels[y * width + x]
  }

  /** The cells of the first `n` pixels of row `y`. */
  function RowCells(pixels: seq<Rgb>, width: nat, height: nat, y: nat, n: nat, luma: Rgb -> byte): (cells: seq<Cell>)
    requires |pixels| == width * height && y < height && n <= width
  {
    seq(n, x requires 0 <= x < n => PixelCell(PixelAt(pixels, width, height, x, y), luma))
  }

  /** One more column adds that pixel's cell at the end of the row. */
  lemma RowCellsSnoc(pixels: seq<Rgb>, width: nat, height: nat, y: nat, x: nat, luma: Rgb -> byte)
    requires |pixels| == width * height && y < height && x < width
    ensures RowCells(pixels, width, height, y, x + 1, luma)
      == RowCells(pixels, width, height, y, x, luma) + [PixelCell(PixelAt(pixels, width, height, x, y), luma)]
  {
  }

  /** The line built for row `y`, before the layout decides whether to
    * keep it. */
  function ColoredLine(pixels: seq<Rgb>, width: nat, height: nat, y: nat, luma: Rgb -> byte): string
    requires |pixels| == width * height && y < height
  {
    SgrRow(RowCells(pixels, width, height, y, width, luma))
  }

  /** The lines built for the first `h` rows, one per row. */
  function ColoredLines(pixels: seq<Rgb>, width: nat, height: nat, h: nat, luma: Rgb -> byte): (lines: seq<string>)
    requires |pixels| == width * height && h <= height
  {
    seq(h, y requires 0 <= y < h => ColoredLine(pixels, width, height, y, luma))
  }

  /** One more row appends that row's line. */
  lemma ColoredLinesSnoc(pixels: seq<Rgb>, width: nat, height: nat, y: nat, luma: Rgb -> byte)
    requires |pixels| == width * height && y < height
    ensures ColoredLines(pixels, width, height, y + 1, luma)
      == ColoredLines(pixels, width, height, y, luma) + [ColoredLine(pixels, width, height, y, luma)]
  {
  }

  /** What `image_to_ascii_colored` returns for an image `width` by
    * `height` whose pixels are listed row by row. */
  function ColoredAscii(pixels: seq<Rgb>, width: nat, height: nat, mode: string, luma: Rgb -> byte): string
    requires |pixels| == width * height
  {
    Unlines(Frames.Keep(ColoredLines(pixels, width, height, height, luma), IsHackMode(mode)))
  }

  /** The inner loop of `image_to_ascii_colored`: the cells of row `y`
    * appended one by one to `line`. */
  method BuildLine(pixels: seq<Rgb>, width: nat, height: nat, y: nat, luma: Rgb -> byte) returns (line: string)
    requires |pixels| == width * height && y < height
    ensures line == ColoredLine(pixels, width, height, y, luma)
  {
    Frames.RowInGrid(y, height, width);
    line := "";
    var x := 0;
    while x < width
      invariant x <= width
      invariant line == SgrRow(RowCells(pixels, width, height, y, x, luma))
    {
      var p := pixels[y * width + x];
      var gray := luma(p);
      var ch := AsciiChars[GlyphIndex(gray)];
      var colorCode := RgbToAnsi256(p.r, p.g, p.b);
      RowCellsSnoc(pixels, width, height, y, x, luma);
      SgrRowSnoc(RowCells(pixels, width, height, y, x, luma), Cell(ch, colorCode));
      line := line + Sgr(Cell(ch, colorCode));
      x := x + 1;
    }
  }

  /** `image_to_ascii_colored`: the outer loop over rows builds each
    * row's line and appends it, with a newline, unless hack mode drops
    * the row. */
  method ImageToAsciiColored(pixels: seq<Rgb>, width: nat, height: nat, mode: string, luma: Rgb -> byte)
    returns (asciiStr: string)
    requires |pixels| == width * height
    ensures asciiStr == ColoredAscii(pixels, width, height, mode, luma)
  {
    asciiStr := "";
    for y := 0 to height
      invariant asciiStr == Unlines(Frames.Keep(ColoredLines(pixels, width, height, y, luma), IsHackMode(mode)))
    {
      ghost var done := ColoredLines(pixels, width, height, y, luma);
      ColoredLinesSnoc(pixels, width, height, y, luma);
      var line := BuildLine(pixels, width, height, y, luma);
      Frames.KeptTextSnoc(done, line, IsHackMode(mode));
      if IsHackMode(mode) && y % 2 == 1 {
        continue;
      }
      asciiStr := asciiStr + line + "\n";
    }
  }

  /** The shape of the text: `(height + 1) / 2` lines in hack mode and
    * `height` otherwise, one newline per line, and line `i` reads back as
    * exactly the cells of image row 2i (hack mode) or row i. */
  lemma ColoredAsciiShape(pixels: seq<Rgb>, width: nat, height: nat, mode: string, luma: Rgb -> byte)
    requires |pixels| == width * height
    ensures var text := ColoredAscii(pixels, width, height, mode, luma);
      var skip := IsHackMode(mode);
      |SplitLines(text)| == Frames.RowCount(height, skip) &&
      Count(text, '\n') == Frames.RowCount(height, skip) &&
      forall i :: 0 <= i < |SplitLines(text)| ==>
        Frames.SourceRow(i, skip) < height &&
        ParseRow(SplitLines(text)[i]) == Some(RowCells(pixels, width, height, Frames.SourceRow(i, skip), width, luma))
  {
    var skip := IsHackMode(mode);
    var kept := Frames.Keep(ColoredLines(pixels, width, height, height, luma), skip);
    forall i | 0 <= i < |kept|
      ensures '\n' !in kept[i]
      ensures ParseRow(kept[i]) == Some(RowCells(pixels, width, height, Frames.SourceRow(i, skip), width, luma))
    {
      var y := Frames.SourceRow(i, skip);
      var cells := RowCells(pixels, width, height, y, width, luma);
      SgrRowHasNoNewline(cells);
      ParseSgrRow(cells);
    }
    SplitUnlines(kept);
    CountUnlines(kept);
  }

  /** Only full brightness draws the densest glyph: a pixel is drawn as
    * '#' exactly when its brightness is 255. */
  lemma DensestNeedsFullBrightness(p: Rgb, luma: Rgb -> byte)
    ensures PixelCell(p, luma).glyph == '#' <==> luma(p) == 255
  {
    var i := GlyphIndex(luma(p));
    assert forall k :: 0 <= k < 9 ==> AsciiChars[k] != '#';
    if i == 9 {
      assert luma(p) * 9 >= 9 * 255;
    }
  }

  /** A solid black image draws blanks in colour 16. A solid white one is
    * drawn in colour 231 with '@' rather than '#': in double precision
    * `0.2126 * 255 + 0.7152 * 255 + 0.0722 * 255` comes to
    * 254.99999999999997, which `int` truncates to 254. */
  lemma SolidImageCells(luma: Rgb -> byte)
    ensures luma(Rgb(0, 0, 0)) == 0 ==> PixelCell(Rgb(0, 0, 0), luma) == Cell(' ', 16)
    ensures luma(Rgb(255, 255, 255)) == 254 ==> PixelCell(Rgb(255, 255, 255), luma) == Cell('@', 231)
  {
  }

  /** ASCII case folding, as `str.lower` does for ASCII letters. */
  function LowerChar(c: char): char
  {
    if 'A' <= c <= 'Z' then (c as int + 32) as char else c
  }

  function UpperChar(c: char): char
  {
    if 'a' <= c <= 'z' then (c as int - 32) as char else c
  }

  function Lower(s: string): (t: string)
    ensures |t| == |s| && forall i :: 0 <= i < |s| ==> t[i] == LowerChar(s[i])
  {
    seq(|s|, i requires 0 <= i < |s| => LowerChar(s[i]))
  }

  function Upper(s: string): (t: string)
    ensures |t| == |s| && forall i :: 0 <= i < |s| ==> t[i] == UpperChar(s[i])
  {
    seq(|s|, i requires 0 <= i < |s| => UpperChar(s[i]))
  }

  predicate EndsWith(s: string, suffix: string)
  {
    |suffix| <= |s| && s[|s| - |suffix|..] == suffix
  }

  /** The still-image extensions of `main`. */
  const ImageExtensions: seq<string> := [".jpg", ".jpeg", ".png", ".bmp", ".gif"]

  /** `file.lower().endswith((".jpg", ".jpeg", ".png", ".bmp", ".gif"))`:
    * the still-image path is taken, otherwise the video path. */
  predicate IsImagePath(name: string)
  {
    exists e :: e in ImageExtensions && EndsWith(Lower(name), e)
  }

  /** The classification ignores letter case: a name, its lower-case and
    * its upper-case form take the same path. */
  lemma ImagePathIgnoresCase(name: string)
    ensures IsImagePath(Lower(name)) == IsImagePath(name)
    ensures IsImagePath(Upper(name)) == IsImagePath(name)
  {
    assert Lower(Lower(name)) == Lower(name);
    assert Lower(Upper(name)) == Lower(name);
  }

  /** An upper-case or mixed-case image extension takes the image path. */
  lemma UpperCaseExtensionIsImage()
    ensures IsImagePath("A.PNG")
    ensures IsImagePath("photo.JpEg")
  {
    assert Lower("A.PNG") == "a.png";
    assert EndsWith(Lower("A.PNG"), ImageExtensions[2]);
    assert Lower("photo.JpEg") == "photo.jpeg";
    assert EndsWith(Lower("photo.JpEg"), ImageExtensions[1]);
  }

  /** A video container, and an extension without its dot, take the video
    * path. */
  lemma OtherNamesAreVideo()
    ensures !IsImagePath("clip.mp4")
    ensures !IsImagePath("png")
  {
    assert Lower("clip.mp4") == "clip.mp4";
    assert Lower("png") == "png";
  }
}
