/** The Go renderer (main.go): `resizeImage` fits the image into a box with
  * unsigned integer arithmetic, and `convertToASCII` draws one glyph per
  * pixel from the 16-bit colour channels that `img.At(x, y).RGBA()`
  * returns; any of "-h", "hack" and "--mode=hack" drops odd rows. */
module GoRender {
  import opened Palette
  import opened Glyphs
  import opened Text
  import opened Arith
  import Frames

  /** A colour channel as `Color.RGBA()` returns it: 16 bits held in a
    * `uint32`. */
  type word16 = x: int | 0 <= x < 0x1_0000

  /** The red, green and blue channels of one pixel (alpha is ignored). */
  datatype Color = Color(r: word16, g: word16, b: word16)

  /** `(r + g + b) / 3 >> 8`: the mean of the channels, scaled down to 8
    * bits. The sum stays below 2^18, so the `uint32` arithmetic never
    * wraps, and the two roundings down make one: the result is the floor
    * of the sum over 768. A grey pixel keeps the high byte of its value. */
  function Gray(c: Color): (gray: byte)
    ensures gray * 768 <= c.r + c.g + c.b < gray * 768 + 768
    ensures c.r == c.g == c.b ==> gray * 256 <= c.r < gray * 256 + 256
  {
    (c.r + c.g + c.b) / 3 / 256
  }

  /** The mode test of `convertToASCII`. */
  predicate SkipsOddRows(mode: string)
  {
    mode == "-h" || mode == "hack" || mode == "--mode=hack"
  }

  /** The glyphs of the first `width` pixels of row `y`; `at(x, y)` is
    * `img.At(x, y).RGBA()`. */
  function Line(at: (nat, nat) -> Color, width: nat, y: nat): (line: string)
  {
    seq(width, x requires 0 <= x < width => AsciiChars[GlyphIndex(Gray(at(x, y)))])
  }

  /** The lines of the first `h` rows. */
  function Lines(at: (nat, nat) -> Color, width: nat, h: nat): seq<string>
  {
    seq(h, y requires 0 <= y < h => Line(at, width, y))
  }

  /** One more pixel extends the line built so far by that pixel's glyph. */
  lemma LinePrefixSnoc(at: (nat, nat) -> Color, width: nat, y: nat, x: nat)
    requires x < width
    ensures var line := Line(at, width, y);
      line[..x + 1] == line[..x] + [AsciiChars[GlyphIndex(Gray(at(x, y)))]]
  {
  }

  /** One more row appends that row's line. */
  lemma LinesSnoc(at: (nat, nat) -> Color, width: nat, y: nat)
    ensures Lines(at, width, y + 1) == Lines(at, width, y) + [Line(at, width, y)]
  {
  }

  /** What `convertToASCII` returns for the size it settled on. */
  function Ascii(at: (nat, nat) -> Color, resizedWidth: nat, resizedHeight: nat, mode: string): string
  {
    Unlines(Frames.Keep(Lines(at, resizedWidth, resizedHeight), SkipsOddRows(mode)))
  }

  /** The drawing loop of `convertToASCII`: for each row not skipped,
    * append the glyph of each pixel, then a newline. */
  method ConvertToAscii(at: (nat, nat) -> Color, resizedWidth: nat, resizedHeight: nat, mode: string)
    returns (asciiArt: string)
    ensures asciiArt == Ascii(at, resizedWidth, resizedHeight, mode)
  {
    asciiArt := "";
    ghost var skip := SkipsOddRows(mode);
    for y := 0 to resizedHeight
      invariant asciiArt == Unlines(Frames.Keep(Lines(at, resizedWidth, y), skip))
    {
      ghost var done := Lines(at, resizedWidth, y);
      ghost var line := Line(at, resizedWidth, y);
      LinesSnoc(at, resizedWidth, y);
      Frames.KeptTextSnoc(done, line, skip);
      if (mode == "-h" || mode == "hack" || mode == "--mode=hack") && y % 2 == 1 {
        continue;
      }
      ghost var before := asciiArt;
      for x := 0 to resizedWidth
        invariant asciiArt == before + line[..x]
      {
        var grayValue := Gray(at(x, y));
        var index := GlyphIndex(grayValue);
        LinePrefixSnoc(at, resizedWidth, y, x);
        asciiArt := asciiArt + [AsciiChars[index]];
      }
      assert line[..resizedWidth] == line;
      asciiArt := asciiArt + "\n";
    }
  }

  /** A line holds `width` ramp glyphs and no newline. */
  lemma LineOverRamp(at: (nat, nat) -> Color, width: nat, y: nat)
    ensures var line := Line(at, width, y);
      |line| == width && OverAlphabet(line, AsciiChars) && '\n' !in line
  {
    var line := Line(at, width, y);
    forall c | c in line
      ensures c in AsciiChars
    {
      var x :| 0 <= x < width && line[x] == c;
      assert line[x] == AsciiChars[GlyphIndex(Gray(at(x, y)))];
    }
  }

  /** The shape of the text: `resizedHeight` lines, or half of them
    * rounded up when odd rows are dropped; each line exactly
    * `resizedWidth` glyphs, glyph `x` of line `i` being that of pixel
    * (x, y) for the row y = i (or 2i); nothing but ramp glyphs and
    * newlines. */
  lemma AsciiShape(at: (nat, nat) -> Color, resizedWidth: nat, resizedHeight: nat, mode: string)
    ensures var text := Ascii(at, resizedWidth, resizedHeight, mode);
      var skip := SkipsOddRows(mode);
      var lines := SplitLines(text);
      |lines| == Frames.RowCount(resizedHeight, skip) &&
      |text| == Frames.RowCount(resizedHeight, skip) * (resizedWidth + 1) &&
      (forall c :: c in text ==> c == '\n' || c in AsciiChars) &&
      forall i :: 0 <= i < |lines| ==>
        Frames.SourceRow(i, skip) < resizedHeight && |lines[i]| == resizedWidth &&
        forall x :: 0 <= x < resizedWidth ==>
          lines[i][x] == AsciiChars[GlyphIndex(Gray(at(x, Frames.SourceRow(i, skip))))]
  {
    var skip := SkipsOddRows(mode);
    var kept := Frames.Keep(Lines(at, resizedWidth, resizedHeight), skip);
    forall i | 0 <= i < |kept|
      ensures Frames.SourceRow(i, skip) < resizedHeight
      ensures kept[i] == Line(at, resizedWidth, Frames.SourceRow(i, skip))
      ensures '\n' !in kept[i] && |kept[i]| == resizedWidth && OverAlphabet(kept[i], AsciiChars)
    {
      LineOverRamp(at, resizedWidth, Frames.SourceRow(i, skip));
    }
    SplitUnlines(kept);
    UnlinesLength(kept, resizedWidth);
    UnlinesAlphabet(kept, AsciiChars);
  }

  // ---------------------------------------------------------------------
  // `resizeImage`: the target size.

  /** Go's `uint` on a 64-bit target; its arithmetic wraps. */
  const UintModulus: int := 0x1_0000_0000_0000_0000

  type uint = x: int | 0 <= x < UintModulus

  /** `a * b` on `uint`: the product reduced modulo 2^64. It never exceeds
    * the exact product, and is the exact product when that fits. */
  function MulU(a: uint, b: uint): (p: uint)
    ensures p <= a * b
    ensures a * b < UintModulus ==> p == a * b
  {
    MulMonotone(0, a, b);
    WrapBelow(a * b);
    (a * b) % UintModulus
  }

  /** Reducing a natural number modulo 2^64 never makes it larger, and
    * leaves it alone when it already fits. */
  lemma WrapBelow(n: nat)
    ensures n % UintModulus <= n
    ensures n < UintModulus ==> n % UintModulus == n
  {
    if n < UintModulus {
      assert n / UintModulus == 0;
    }
  }

  /** `n / d` on `uint`: the quotient never exceeds the dividend. */
  function DivU(n: uint, d: uint): (q: uint)
    requires d != 0
    ensures q <= n
  {
    FloorDiv(n, d);
    MulMonotone(1, d, n / d);
    n / d
  }

  /** The size `resizeImage` passes to the resampler, or the run-time
    * panic of an integer division by zero, which happens exactly when the
    * image is empty in both directions. */
  datatype Resized = Resized(width: uint, height: uint) | DivisionByZero

  /** The size arithmetic of `resizeImage`. A landscape image
    * (`origWidth > origHeight`) takes the full `maxWidth` and its height in
    * proportion, unless that height is over `maxHeight`, in which case the
    * height is `maxHeight` and the width in proportion; any other image
    * starts from the full `maxHeight` instead. Proportions are rounded
    * down. `bounds.Dx()` and `bounds.Dy()` are non-negative `int`s. */
  function ResizeDims(origWidth: int, origHeight: int, maxWidth: uint, maxHeight: uint): (res: Resized)
    requires 0 <= origWidth < UintModulus / 2 && 0 <= origHeight < UintModulus / 2
    ensures res == DivisionByZero <==> origWidth == 0 && origHeight == 0
  {
    if origWidth > origHeight then
      var newHeight := DivU(MulU(origHeight, maxWidth), origWidth);
      if newHeight > maxHeight then
        Resized(DivU(MulU(origWidth, maxHeight), origHeight), maxHeight)
      else
        Resized(maxWidth, newHeight)
    else if origHeight == 0 then
      DivisionByZero
    else
      var newWidth := DivU(MulU(origWidth, maxHeight), origHeight);
      if newWidth > maxWidth then
        Resized(maxWidth, DivU(MulU(origHeight, maxWidth), origWidth))
      else
        Resized(newWidth, maxHeight)
  }

  /** Neither product of an original side and a box side wraps. */
  predicate NoOverflow(origWidth: nat, origHeight: nat, maxWidth: nat, maxHeight: nat)
  {
    origHeight * maxWidth < UintModulus && origWidth * maxHeight < UintModulus
  }

  /** The side recomputed after a clip fits, whether or not the products
    * wrapped. The clipped side was `x / p` for some `x <= a * q` (the
    * possibly wrapped `a * q`) and came out over `b`; the recomputed side
    * is `y / a` for some `y <= p * b`. Then `y < p * b + p <= x <= a * q`,
    * so `y / a` is below `q`. */
  lemma CrossFits(a: nat, p: nat, b: nat, q: nat, x: nat, y: nat)
    requires 0 < a && 0 < p && x <= a * q && y <= p * b && x / p > b
    ensures y / a < q
  {
    FloorDiv(x, p);
    MulMonotone(b + 1, x / p, p);
    assert p * b + p == (b + 1) * p;
    FloorDiv(y, a);
    if y / a >= q {
      MulMonotone(q, y / a, a);
    }
  }

  /** The image fits the box and fills it in at least one direction, for
    * every size of image and box: a wrapped product is smaller than the
    * exact one, which only makes the derived side smaller. */
  lemma ResizeFitsBox(origWidth: nat, origHeight: nat, maxWidth: uint, maxHeight: uint)
    requires origWidth < UintModulus / 2 && origHeight < UintModulus / 2
    requires origWidth > 0 || origHeight > 0
    ensures var res := ResizeDims(origWidth, origHeight, maxWidth, maxHeight);
      res.Resized? && res.width <= maxWidth && res.height <= maxHeight &&
      (res.width == maxWidth || res.height == maxHeight)
  {
    var heightProduct, widthProduct := MulU(origHeight, maxWidth), MulU(origWidth, maxHeight);
    var res := ResizeDims(origWidth, origHeight, maxWidth, maxHeight);
    if origWidth > origHeight {
      if heightProduct / origWidth > maxHeight {
        assert origHeight > 0;
        assert res == Resized(widthProduct / origHeight, maxHeight);
        CrossFits(origHeight, origWidth, maxHeight, maxWidth, heightProduct, widthProduct);
      } else {
        assert res == Resized(maxWidth, heightProduct / origWidth);
      }
    } else {
      if widthProduct / origHeight > maxWidth {
        assert origWidth > 0;
        assert res == Resized(maxWidth, heightProduct / origWidth);
        CrossFits(origWidth, origHeight, maxWidth, maxHeight, widthProduct, heightProduct);
      } else {
        assert res == Resized(widthProduct / origHeight, maxHeight);
      }
    }
  }

  /** Without wrap-around the result keeps the aspect ratio up to
    * rounding: one side is the box side and the other is the largest whole
    * number not exceeding its exact proportion. */
  lemma ResizeKeepsAspect(origWidth: nat, origHeight: nat, maxWidth: uint, maxHeight: uint)
    requires 0 < origWidth < UintModulus / 2 && 0 < origHeight < UintModulus / 2
    requires NoOverflow(origWidth, origHeight, maxWidth, maxHeight)
    ensures var res := ResizeDims(origWidth, origHeight, maxWidth, maxHeight);
      res.Resized? &&
      ((res.width == maxWidth &&
        res.height * origWidth <= origHeight * maxWidth < res.height * origWidth + origWidth) ||
       (res.height == maxHeight &&
        res.width * origHeight <= origWidth * maxHeight < res.width * origHeight + origHeight))
  {
    var heightProduct, widthProduct := origHeight * maxWidth, origWidth * maxHeight;
    assert MulU(origHeight, maxWidth) == heightProduct;
    assert MulU(origWidth, maxHeight) == widthProduct;
    FloorDiv(heightProduct, origWidth);
    FloorDiv(widthProduct, origHeight);
  }

  /** For every non-empty image and every box, wrap-around included, one
    * side is the box side and the other never exceeds its exact
    * proportion: a wrapped product is below the exact one, so it only
    * makes the derived side smaller. */
  lemma DerivedBelowProportion(origWidth: nat, origHeight: nat, maxWidth: uint, maxHeight: uint)
    requires origWidth < UintModulus / 2 && origHeight < UintModulus / 2
    requires origWidth > 0 || origHeight > 0
    ensures var res := ResizeDims(origWidth, origHeight, maxWidth, maxHeight);
      res.Resized? &&
      ((res.width == maxWidth && res.height * origWidth <= origHeight * maxWidth) ||
       (res.height == maxHeight && res.width * origHeight <= origWidth * maxHeight))
  {
    var heightProduct, widthProduct := MulU(origHeight, maxWidth), MulU(origWidth, maxHeight);
    if origWidth > 0 {
      FloorDiv(heightProduct, origWidth);
    }
    if origHeight > 0 {
      FloorDiv(widthProduct, origHeight);
    }
  }

  /** Unless the derived side is clipped, the leading side is the full
    * box side: the width for a landscape image, the height otherwise. */
  lemma UnclippedTakesBoxSide(origWidth: nat, origHeight: nat, maxWidth: uint, maxHeight: uint)
    requires 0 < origWidth < UintModulus / 2 && 0 < origHeight < UintModulus / 2
    requires NoOverflow(origWidth, origHeight, maxWidth, maxHeight)
    ensures var res := ResizeDims(origWidth, origHeight, maxWidth, maxHeight);
      (origWidth > origHeight && origHeight * maxWidth / origWidth <= maxHeight ==>
        res == Resized(maxWidth, origHeight * maxWidth / origWidth)) &&
      (origWidth <= origHeight && origWidth * maxHeight / origHeight <= maxWidth ==>
        res == Resized(origWidth * maxHeight / origHeight, maxHeight))
  {
    assert MulU(origHeight, maxWidth) == origHeight * maxWidth;
    assert MulU(origWidth, maxHeight) == origWidth * maxHeight;
  }

  /** A square image becomes a square as large as the box allows. */
  lemma SquareFitsSmallerSide(side: nat, maxWidth: uint, maxHeight: uint)
    requires 0 < side < UintModulus / 2
    requires NoOverflow(side, side, maxWidth, maxHeight)
    ensures var res := ResizeDims(side, side, maxWidth, maxHeight);
      var m := if maxWidth < maxHeight then maxWidth else maxHeight;
      res == Resized(m, m)
  {
    CancelFactor(side, maxHeight);
    CancelFactor(side, maxWidth);
  }

  /** The 200 by 200 box `main` uses never wraps for an image whose sides
    * are below 2^56. */
  lemma DefaultBoxNoOverflow(origWidth: nat, origHeight: nat)
    requires origWidth < 0x100_0000_0000_0000 && origHeight < 0x100_0000_0000_0000
    ensures NoOverflow(origWidth, origHeight, 200, 200)
  {
  }

  /** With a box side near 2^63 the product wraps: a 3 by 2 image and a box
    * 2^63 wide gets height 0 rather than two thirds of the width. */
  lemma HugeBoxWraps()
    ensures !NoOverflow(3, 2, 0x8000_0000_0000_0000, 0x8000_0000_0000_0000)
    ensures ResizeDims(3, 2, 0x8000_0000_0000_0000, 0x8000_0000_0000_0000)
      == Resized(0x8000_0000_0000_0000, 0)
  {
  }
}
