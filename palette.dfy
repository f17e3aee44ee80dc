/** The colour quantizer of main.py: an 8-bit RGB sample is mapped to a slot
  * of the xterm 256-colour palette, whose slots 16..231 are a 6x6x6 colour
  * cube (slot 16 + 36 red + 6 green + blue) and whose slots 232..255 are a
  * 24-step grey ramp. Slots 0..15 are never chosen. */
module Palette {

  /** An 8-bit channel intensity. */
  type byte = x: int | 0 <= x < 256

  /** A pixel sample after conversion to RGB. */
  datatype Rgb = Rgb(r: byte, g: byte, b: byte)

  /** Level of one channel on an axis of the colour cube. The source writes
    * `int(c / 255 * 5)`; for every byte this is `c / 51` (the six multiples
    * of 51 are the only bytes where c / 255 * 5 is a whole number, and the
    * floating-point expression is exact there). */
  function CubeLevel(c: byte): (level: nat)
    ensures level <= 5
    ensures level * 51 <= c < level * 51 + 51
  {
    c / 51
  }

  /** Step of the grey ramp chosen for a grey value in 8..248. The source
    * writes `int(((v - 8) / 247) * 24)`; since 247 and 24 are coprime the
    * exact quotient is a whole number only at v = 8, so truncating the
    * floating-point value equals integer division. */
  function GreyStep(v: byte): (step: nat)
    requires 8 <= v <= 248
    ensures step <= 23
    ensures step * 247 <= (v - 8) * 24 < step * 247 + 247
  {
    (v - 8) * 24 / 247
  }

  /** `rgb_to_ansi256` of main.py. */
  function RgbToAnsi256(r: byte, g: byte, b: byte): (code: int)
    ensures 16 <= code <= 255
    ensures r == g == b && r < 8 ==> code == 16
    ensures r == g == b && r > 248 ==> code == 231
    ensures r == g == b && 8 <= r <= 248 ==> 232 <= code <= 255
    ensures !(r == g == b) ==> 16 <= code <= 231
  {
    if r == g == b then
      if r < 8 then 16
      else if r > 248 then 231
      else GreyStep(r) + 232
    else
      16 + 36 * CubeLevel(r) + 6 * CubeLevel(g) + CubeLevel(b)
  }

  /** What a slot of the 256-colour palette shows: one of the sixteen
    * system colours, a point of the colour cube given by its three levels,
    * or a step of the grey ramp. This is the terminal's side of the
    * encoding, written independently of the quantizer. */
  datatype Slot = System(index: nat) | Cube(red: nat, green: nat, blue: nat) | Grey(step: nat)

  function SlotOf(code: int): (slot: Slot)
    requires 0 <= code <= 255
  {
    if code < 16 then System(code)
    else if code < 232 then Cube((code - 16) / 36, (code - 16) / 6 % 6, (code - 16) % 6)
    else Grey(code - 232)
  }

  /** A chromatic sample lands on the cube point of its three channel
    * levels. */
  lemma ChromaticSlot(r: byte, g: byte, b: byte)
    requires !(r == g == b)
    ensures SlotOf(RgbToAnsi256(r, g, b)) == Cube(CubeLevel(r), CubeLevel(g), CubeLevel(b))
  {
    var lr, lg, lb := CubeLevel(r), CubeLevel(g), CubeLevel(b);
    var k := 36 * lr + 6 * lg + lb;
    assert RgbToAnsi256(r, g, b) - 16 == k;
    assert k / 36 == lr;
    assert k / 6 == 6 * lr + lg;
    assert k / 6 % 6 == lg;
    assert k % 6 == lb;
  }

  /** A grey sample that is neither near-black nor near-white lands on the
    * grey-ramp step that `GreyStep` computes. */
  lemma GreySlotOf(v: byte)
    requires 8 <= v <= 248
    ensures SlotOf(RgbToAnsi256(v, v, v)) == Grey(GreyStep(v))
  {
  }

  /** Near-black greys take the darkest cube corner, near-white greys the
    * brightest. */
  lemma GreyExtremes(v: byte)
    ensures v < 8 ==> SlotOf(RgbToAnsi256(v, v, v)) == Cube(0, 0, 0)
    ensures v > 248 ==> SlotOf(RgbToAnsi256(v, v, v)) == Cube(5, 5, 5)
  {
  }

  /** On the grey band the slot never gets darker as the grey gets
    * lighter. */
  lemma GreyMonotone(v: byte, w: byte)
    requires 8 <= v <= w <= 248
    ensures RgbToAnsi256(v, v, v) <= RgbToAnsi256(w, w, w)
  {
    assert (v - 8) * 24 <= (w - 8) * 24;
  }

  /** Changing channels without moving any of them to another cube level
    * does not change the code of a chromatic sample. */
  lemma SameLevelsSameCode(r: byte, g: byte, b: byte, r': byte, g': byte, b': byte)
    requires !(r == g == b) && !(r' == g' == b')
    requires CubeLevel(r) == CubeLevel(r') && CubeLevel(g) == CubeLevel(g') && CubeLevel(b) == CubeLevel(b')
    ensures RgbToAnsi256(r, g, b) == RgbToAnsi256(r', g', b')
  {
  }

  /** Conversely, distinct chromatic codes mean some channel changed its
    * cube level: the code determines the three levels. */
  lemma CodeDeterminesLevels(r: byte, g: byte, b: byte, r': byte, g': byte, b': byte)
    requires !(r == g == b) && !(r' == g' == b')
    requires RgbToAnsi256(r, g, b) == RgbToAnsi256(r', g', b')
    ensures CubeLevel(r) == CubeLevel(r') && CubeLevel(g) == CubeLevel(g') && CubeLevel(b) == CubeLevel(b')
  {
    ChromaticSlot(r, g, b);
    ChromaticSlot(r', g', b');
  }
}
