/**
 * The pixel store shared by both LED backends: one RGB pixel per LED, and
 * the demo pass that overwrites every pixel with a dim colour taken from a
 * random 32-bit word.
 */
module Pixels {

  /** One LED's colour: three independent 8-bit channel intensities. */
  datatype Pixel = Pixel(r: bv8, g: bv8, b: bv8)

  /** The colour every pixel starts with. */
  const Black := Pixel(0, 0, 0)

  /** The truncating cast `x as u8`: the low eight bits of a 32-bit word. */
  function Low8(x: bv32): bv8
  {
    (x & 0xFF) as bv8
  }

  /** The demo colour drawn from one random word `d`: each channel is the
      word's byte at offset 0 (red), 8 (green) or 16 (blue), cast to a byte
      and masked with 0x7. */
  function ColourFromWord(d: bv32): (p: Pixel)
    ensures p.r as bv32 == d & 0x7
    ensures p.g as bv32 == (d >> 8) & 0x7
    ensures p.b as bv32 == (d >> 16) & 0x7
    ensures p.r <= 7 && p.g <= 7 && p.b <= 7
  {
    Pixel(Low8(d) & 0x7, Low8(d >> 8) & 0x7, Low8(d >> 16) & 0x7)
  }

  /** The colour pass: pixel `i` gets the colour of `words[i]`, the `i`-th
      word the random source produced during this pass. */
  method FillColours(pixels: array<Pixel>, words: seq<bv32>)
    requires |words| == pixels.Length
    modifies pixels
    ensures forall i :: 0 <= i < pixels.Length ==> pixels[i] == ColourFromWord(words[i])
  {
    for i := 0 to pixels.Length
      invariant forall j :: 0 <= j < i ==> pixels[j] == ColourFromWord(words[j])
    {
      var d := words[i];
      pixels[i] := pixels[i].(r := Low8(d) & 0x7, g := Low8(d >> 8) & 0x7, b := Low8(d >> 16) & 0x7);
    }
  }
}
