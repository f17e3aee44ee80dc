# img-to-ascii, modelled in Dafny

img-to-ascii draws an image as text. It has three independent
implementations, and each one walks the resized image row by row. Each
pixel's brightness picks one glyph from a ten-character ramp. In the compact
("hack") mode every odd row is dropped, which offsets the height of terminal
characters.

- **main.py** wraps each glyph in an SGR escape. The escape sets the
  foreground to the pixel's slot of the xterm 256-colour palette, and a reset
  follows each glyph. The file extension decides between the still-image
  path and the video path.
- **src/main.cpp** renders plain text from a flat RGB byte buffer. It uses the
  ramp reversed and the integer mean of the channels.
- **main.go** renders plain text from the 16-bit channels that
  `Color.RGBA()` returns. Before that, `resizeImage` fits the image into a box
  using unsigned integer arithmetic.

The model has one module per concern:

- `Palette`: `rgb_to_ansi256`, with an independent decoding of palette slots.
- `Glyphs`: the ramp and the brightness-to-glyph index.
- `Frames`: which rows become lines.
- `Arith`: multiplication and floored division facts used by the row layout and the resize arithmetic.
- `Text`: joining lines, splitting them again, and decimal numerals.
- `PyRender`, `CppRender`, `GoRender`: the three renderers.
- `Agreement`: how the three renderers relate.

Each drawing loop is a method with loop invariants. Each is proved equal to a
specification function built from comprehensions, and the shape of that
function's text is proved separately:

- the number of lines;
- the width of each line;
- which pixel each glyph comes from;
- the alphabet of the text;
- for Python, that every line parses back into the cells that produced it.

Two floating-point expressions of main.py are modelled by exact integer
division:

- `int(c / 255 * 5)` is `c / 51` for every byte. The quotient is a whole
  number only at the six multiples of 51, and the float is exact there.
- `int((v - 8) / 247 * 24)` is `(v - 8) * 24 / 247` for v in 8..248. 247 and
  24 are coprime, so the exact quotient is a whole number only at v = 8.

Go's `(r + g + b) / 3 >> 8` never wraps in `uint32`: the sum stays below
2^18. Go's `uint` is taken to be 64 bits wide, as on a 64-bit target. Its
multiplication is modelled with explicit wrap-around (`MulU`).

## Model

| member | source | states |
|---|---|---|
| Palette.CubeLevel | main.py:91-93 | the cube level of a channel is at most 5, and the channel lies in the level's band of 51 values |
| Palette.GreyStep | main.py:90 | the grey step is at most 23 and is the floor of (v - 8) * 24 / 247 |
| Palette.RgbToAnsi256 | main.py:84-94 | the code lies in 16..255. An achromatic sample below 8 gives 16 and one above 248 gives 231; one in 8..248 gives 232..255. A chromatic sample gives 16..231 |
| Palette.ChromaticSlot | main.py:91-94 | a chromatic sample's code decodes, as an xterm palette slot, to the cube point of its three channel levels |
| Palette.GreySlotOf | main.py:90 | a grey in 8..248 decodes to the grey-ramp step that GreyStep gives |
| Palette.GreyExtremes | main.py:85-89 | near-black greys decode to cube corner (0,0,0) and near-white greys to (5,5,5) |
| Palette.GreyMonotone | main.py:90 | on 8..248 the code never decreases as the grey gets lighter |
| Palette.SameLevelsSameCode | main.py:91-94 | chromatic samples whose channels share their cube levels get the same code |
| Palette.CodeDeterminesLevels | main.py:91-94 | equal chromatic codes mean equal cube levels in every channel (the converse of SameLevelsSameCode) |
| Glyphs.GlyphIndex | main.py:108 | the ramp index is below 10 and is the floor of gray * 9 / 255 |
| Glyphs.GlyphIndexMonotone | main.py:108 | a brighter pixel never gets an earlier ramp position |
| Glyphs.GlyphIndexEnds | main.py:9 | gray 0 picks ' ' and gray 255 picks '#' |
| Glyphs.FirstGrayOf | main.py:108 | the darkest gray reaching each ramp position; the gray just below it falls in an earlier position |
| Glyphs.EveryGlyphUsed | main.py:9 | every glyph of the ramp is picked by some brightness |
| Frames.Keep | main.py:111-116 | the number of kept rows is the height, or the height halved and rounded up when odd rows are dropped |
| Frames.KeepSnoc | main.py:111-116 | going from n rows to n + 1, the new row is appended exactly when it is emitted |
| Frames.KeptTextSnoc | main.py:111-116 | one more row extends the text by that row and a newline exactly when the row is emitted, and leaves it unchanged otherwise |
| Frames.KeepsExactlyEmitted | main.go:35-38 | the written lines are exactly the emitted rows, in order: each line comes from an emitted row, later lines from later rows, and every emitted row is written |
| Frames.RowInGrid | main.py:106 | row y of a width-wide grid ends inside a grid of height rows, so `y * width + x` is in bounds |
| Text.Decimal | main.py:110 | `str(code)` is a non-empty string of digits with no leading zero |
| Text.DecimalRoundTrip | main.py:110 | reading the decimal numeral back gives the number |
| Text.SplitUnlines | main.py:116 | splitting the joined text at newlines gives back the lines, when no line holds a newline |
| Text.CountUnlines | main.py:116 | the text holds exactly one newline per line |
| Text.UnlinesLength | src/main.cpp:48-57 | lines of w characters join into a text of w + 1 characters per line |
| PyRender.ParseCellSgr | main.py:110 | the cell format can be read back: parsing the front of a cell's escape text gives the cell and the escape's length |
| PyRender.ParseSgrRow | main.py:104-110 | parsing a rendered row gives back its cells: every cell is self-delimiting and ends with a reset |
| PyRender.PixelCell | main.py:106-110 | a pixel's cell has a ramp glyph and a palette code in 16..255, and grey pixels take 16, 231 or the grey ramp |
| PyRender.RowCellsSnoc | main.py:105-110 | one more column appends that pixel's cell to the row |
| PyRender.BuildLine | main.py:104-110 | the inner loop builds the escape text of the row's cells |
| PyRender.ImageToAsciiColored | main.py:97-118 | the loops build the kept rows' lines, each followed by a newline |
| PyRender.ColoredAsciiShape | main.py:103-116 | the text has `height` lines, or (height + 1) / 2 in hack mode. Line i parses back into the cells of row i, or of row 2i. The newline count equals the line count |
| PyRender.SolidImageCells | main.py:84-89 | black (brightness 0) draws a blank in colour 16; white, whose brightness main.py:107 computes as 254, draws '@' in colour 231 |
| PyRender.DensestNeedsFullBrightness | main.py:107-108 | a pixel is drawn as '#' exactly when its brightness is 255 |
| PyRender.IsHackMode | main.py:111 | the modes that drop odd rows: "hack", "-h" and "--mode=hack" |
| PyRender.Sgr | main.py:110 | a cell's text starts with the set-foreground escape, ends with the glyph and a reset, and is as long as the escapes, the decimal code, 'm' and the glyph |
| PyRender.PixelAt | main.py:106 | `pixels[y * width + x]` is a pixel of the image |
| PyRender.IsImagePath | main.py:146 | a name takes the image path when its lower-case form ends in one of the five image extensions |
| PyRender.ImagePathIgnoresCase | main.py:146 | the image/video choice ignores letter case |
| PyRender.UpperCaseExtensionIsImage | main.py:146 | "A.PNG" and "photo.JpEg" take the image path |
| PyRender.OtherNamesAreVideo | main.py:146-149 | "clip.mp4" and the bare "png" take the video path |
| CppRender.RampReversed | src/main.cpp:15 | the C++ ramp is the Python and Go ramp reversed |
| CppRender.Gray | src/main.cpp:53 | the mean lies between the darkest and the brightest channel, and a grey pixel keeps its value |
| CppRender.Glyph | src/main.cpp:54-55 | the glyph is a ramp glyph, the mirror image of the one the other renderers pick |
| CppRender.GlyphEnds | src/main.cpp:54-55 | gray 0 gives '#' and gray 255 gives ' ' |
| CppRender.SkipsOddRows | src/main.cpp:44 | only the exact mode "-h" drops odd rows |
| CppRender.PixelGlyph | src/main.cpp:49-55 | the glyph of pixel (x, y) is a glyph of the reversed ramp |
| CppRender.Offset | src/main.cpp:49-52 | idx, idx + 1 and idx + 2 are inside a buffer of imgWidth * height * 3 bytes |
| CppRender.AppendLine | src/main.cpp:48-56 | the inner loop appends exactly the row's `width` glyphs to the text built so far |
| CppRender.ConvertToAscii | src/main.cpp:34-60 | the loops build the kept rows' lines, each followed by '\n'; only "-h" drops rows |
| CppRender.AsciiShape | src/main.cpp:43-58 | there are `height` lines, or (height + 1) / 2 under "-h"; each has `width` ramp glyphs, taken from the right pixels. The text is RowCount * (width + 1) characters long, and only ramp glyphs and newlines occur in it |
| GoRender.Gray | main.go:42 | the brightness is the floor of the channel sum over 768, so it fits a byte, and a grey pixel keeps its high byte |
| GoRender.SkipsOddRows | main.go:36 | any of "-h", "hack" and "--mode=hack" drops odd rows |
| GoRender.Line | main.go:40-46 | line y holds the glyph of each of the row's first `width` pixels, in order |
| GoRender.ConvertToAscii | main.go:35-48 | the loops build the kept rows' lines, each followed by a newline; any of the three mode spellings drops rows |
| GoRender.AsciiShape | main.go:35-48 | as for C++: the line count, each line's source row below `resizedHeight`, the line width and the pixel of every glyph; only ramp glyphs and newlines occur |
| GoRender.MulU | main.go:76 | 64-bit unsigned multiplication never exceeds the exact product, and is exact when the product fits |
| GoRender.DivU | main.go:76 | unsigned division never exceeds the dividend, so the quotient stays a `uint` |
| GoRender.ResizeDims | main.go:73-88 | the division by zero happens exactly when both sides are zero |
| GoRender.CrossFits | main.go:77-79 | when the derived side is clipped, the side recomputed from the other box side is below that box side, even if the products wrap |
| GoRender.ResizeFitsBox | main.go:73-88 | for every non-empty image and every box, wrap-around included, the result fits the box and fills it in at least one direction |
| GoRender.ResizeKeepsAspect | main.go:76-86 | without wrap-around, one side is the box side and the other is the floor of its exact proportion |
| GoRender.DerivedBelowProportion | main.go:74-87 | for every non-empty image and every box, wrap-around included, one side is the box side and the other never exceeds its exact proportion |
| GoRender.UnclippedTakesBoxSide | main.go:74-83 | an unclipped landscape image takes the full maxWidth, and any other unclipped image the full maxHeight |
| GoRender.SquareFitsSmallerSide | main.go:81-87 | a square image takes the portrait branch and becomes a square of the smaller box side |
| GoRender.DefaultBoxNoOverflow | main.go:120-121 | the 200 by 200 box of `main` never wraps for sides below 2^56 |
| GoRender.HugeBoxWraps | main.go:76 | a box side of 2^63 wraps the product, and a 3 by 2 image gets height 0 |
| Agreement.ModesAgree | main.go:36 | main.py and main.go drop rows for the same mode strings; src/main.cpp's "-h" is one of them |
| Agreement.HackIsNotCompactInCpp | src/main.cpp:44 | "hack" drops rows in Python and Go but not in C++ |
| Agreement.WidenedGray | main.go:41-42 | for an opaque 8-bit pixel, Go's brightness is C++'s or one more, and exactly when it is one more |
| Agreement.BandsCanDiffer | main.go:42-44 | pixel (255, 86, 0) falls in ramp band 3 in C++ and in band 4 in Go |

## Left out

- Video playback in main.py (lines 11-63) is not modelled. That covers `ffprobe`/`ffmpeg`, the frame rate, temporary directories, the frame glob, `clear` and `time.sleep`. These are external processes and timing.
- Image decoding and resampling are not modelled: PIL's `clean_image` and `img.resize`, `stbi_load`, `stbir_resize_uint8`, and `resize.Resize` with Lanczos3. They are foreign libraries. The renderers take the already resized pixels as input.
- The floating-point sizing is not modelled. This covers `resize_image` (main.py:75-80), `calculateResize` (src/main.cpp:70-104) and the first lines of Go's `convertToASCII` (main.go:22-29). The Go loop takes `resizedWidth` and `resizedHeight` as parameters.
- The luminance `int(0.2126 r + 0.7152 g + 0.0722 b)` at main.py:107 is floating point. It is the parameter `luma`, which yields a byte.
- PyRender.SolidImageCells and PyRender.DensestNeedsFullBrightness leave `luma` open. In double precision the expression at main.py:107 comes to 254.99999999999997 for white, so `int` gives 254, and it grows with each channel. So it never reaches 255, and by PyRender.DensestNeedsFullBrightness main.py never draws '#'. The model does not prove this bound, because it needs floating-point rounding.
- `img.At(x, y).RGBA()` in main.go is the parameter `at`. `Agreement.Widen` states what it gives for opaque 8-bit pixels. Other colour models, and alpha, are not modelled.
- Argument handling, file writing and printing in all three `main` functions are I/O and are not modelled. main.py:131-139 reads `sys.argv[2]` and `sys.argv[3]` under length guards one too small, so it fails with fewer than four arguments. That code is outside this model.
- `str.lower` is modelled for ASCII letters only. Non-ASCII case folding cannot change whether a name ends in one of the five ASCII extensions, except for characters that lower-case to ASCII letters, such as KELVIN SIGN to 'k'. No extension contains such a letter.
- CppRender.ConvertToAscii requires `width <= imgWidth` and a buffer of `imgWidth * height * 3` bytes. This matches `main`'s only call, which passes the resized buffer and its own width as both `width` and `imgWidth`. A larger buffer would also be read safely, but the model does not cover that case. Overflow of C++ `int` in `(y * imgWidth + x) * 3` is not modelled.
- GoRender.ConvertToAscii takes non-negative sizes. A negative size in Go runs no iterations, just like size 0.
- GoRender.ResizeKeepsAspect assumes that no product wraps (`NoOverflow`). Only its lower bound needs this: with wrap-around the derived side can fall far below its proportion, as `GoRender.HugeBoxWraps` shows. The upper bound holds for every input and is proved as `GoRender.DerivedBelowProportion`.
- GoRender.UnclippedTakesBoxSide assumes that no product wraps (`NoOverflow`), since a wrapped product gives a different derived side.
- GoRender.SquareFitsSmallerSide assumes that no product wraps (`NoOverflow`); a wrapped product does not give back the box side.
- GoRender.MulU models Go's `uint` as 64 bits wide (`UintModulus` is 2^64), as on a 64-bit target. On a 32-bit target `uint` is 32 bits wide and the products wrap sooner; GoRender.DefaultBoxNoOverflow's bound of 2^56 depends on the 64-bit width.
- PyRender.BuildLine is the inner `for x` loop of `image_to_ascii_colored`, given a name of its own. The source builds the row inline.
- CppRender.AppendLine is the inner `for x` loop of `convertToASCII` in src/main.cpp, given a name of its own. The source appends to `asciiArt` inline. The Go inner loop stays inline in `GoRender.ConvertToAscii`.
