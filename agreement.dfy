/** How the three renderers relate: which mode strings drop odd rows in
  * each, and how the brightness the Go renderer computes from 16-bit
  * channels compares with the one the C++ renderer computes from the same
  * 8-bit pixel. */
module Agreement {
  import opened Palette
  import opened Glyphs
  import PyRender
  import CppRender
  import GoRender

  /** main.py and main.go accept the same three spellings of the compact
    * mode; src/main.cpp accepts only "-h", a subset of them. */
  lemma ModesAgree(mode: string)
    ensures GoRender.SkipsOddRows(mode) <==> PyRender.IsHackMode(mode)
    ensures CppRender.SkipsOddRows(mode) ==> PyRender.IsHackMode(mode)
  {
  }

  /** "hack" drops odd rows in the Python and Go renderers but not in the
    * C++ one. */
  lemma HackIsNotCompactInCpp()
    ensures PyRender.IsHackMode("hack") && GoRender.SkipsOddRows("hack")
    ensures !CppRender.SkipsOddRows("hack")
  {
  }

  /** What `Color.RGBA()` reports for an opaque 8-bit channel: the byte
    * repeated in both halves of 16 bits, `c | c << 8`. */
  function Widen(c: byte): (w: GoRender.word16)
    ensures w / 256 == c && w % 256 == c
  {
    c * 257
  }

  /** For the same 8-bit pixel, the Go brightness equals the C++ one or
    * exceeds it by one. It exceeds it exactly when the channel sum leaves
    * remainder 2 modulo 3 and the mean is at least 85, or leaves remainder
    * 1 and the mean is at least 171. */
  lemma WidenedGray(r: byte, g: byte, b: byte)
    ensures var goGray := GoRender.Gray(GoRender.Color(Widen(r), Widen(g), Widen(b)));
      var cppGray := CppRender.Gray(r, g, b);
      (goGray == cppGray || goGray == cppGray + 1) &&
      (goGray == cppGray + 1 <==>
        ((r + g + b) % 3 == 2 && cppGray >= 85) || ((r + g + b) % 3 == 1 && cppGray >= 171))
  {
    var s := r + g + b;
    var q, m := s / 3, s % 3;
    assert s == 3 * q + m;
    var wideSum := Widen(r) + Widen(g) + Widen(b);
    assert wideSum == 257 * s;
    var extra := if m == 0 then 0 else if m == 1 then 85 else 171;
    assert wideSum / 3 == 257 * q + extra;
    assert wideSum / 3 / 256 == q + (q + extra) / 256;
  }

  /** The difference reaches the glyph: the pixel (255, 86, 0) falls in
    * ramp band 3 in the C++ renderer and in band 4 in the Go renderer. */
  lemma BandsCanDiffer()
    ensures GlyphIndex(CppRender.Gray(255, 86, 0)) == 3
    ensures GlyphIndex(GoRender.Gray(GoRender.Color(Widen(255), Widen(86), Widen(0)))) == 4
  {
  }
}
