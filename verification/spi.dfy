/**
 * The oversampled-serial backend: the SPI engine is clocked so that one SPI
 * bit lasts one protocol time unit (350 ns), every colour bit becomes a
 * 4-bit pattern (`1000` for 0, `1100` for 1), two patterns share a byte,
 * and a whole frame is one flat buffer written in a single DMA transfer.
 */
module Spi {
  import opened Options
  import opened Bits
  import opened Pixels

  /** Number of LEDs on the strip this backend drives. */
  const NumPixels: nat := 600

  /** SPI bytes per pixel: 3 channels, 4 bytes per channel byte. */
  const BytesPerPixel: nat := 3 * 4

  /** Size of the frame buffer. */
  const NumSpiBytes: nat := NumPixels * 3 * 4

  /** Wait after the start-up burst, in microseconds. */
  const ResetMicros: nat := 100

  /** Wait between two frames: one second. */
  const FramePeriodMicros: nat := 1_000_000

  /** A 0 bit: one clocked high bit (350 ns) then three low ones. */
  const ZeroPulse: bv8 := 0x8  // 0b1000

  /** A 1 bit: two clocked high bits (700 ns) then two low ones. */
  const OnePulse: bv8 := 0xC  // 0b1100

  /** The SPI byte for each pair of colour bits, indexed by the pair's value. */
  const PulseCodeTable: seq<bv8> := [
    (ZeroPulse << 4) | ZeroPulse,
    (ZeroPulse << 4) | OnePulse,
    (OnePulse << 4) | ZeroPulse,
    (OnePulse << 4) | OnePulse
  ]

  function HighNibble(x: bv8): bv8 { x >> 4 }

  function LowNibble(x: bv8): bv8 { x & 0xF }

  /** The 4-bit pattern of one colour bit. */
  function Pattern(bit: bool): bv8
  {
    if bit then OnePulse else ZeroPulse
  }

  /** The table entry for a bit pair holds the pattern of the pair's high
      bit in its high nibble and of its low bit in its low nibble. */
  lemma TableEntry(pair: bv8)
    requires pair < 4
    ensures HighNibble(PulseCodeTable[pair as int]) == Pattern((pair & 2) != 0)
    ensures LowNibble(PulseCodeTable[pair as int]) == Pattern((pair & 1) != 0)
    ensures PulseCodeTable[pair as int] in {0x88, 0x8C, 0xC8, 0xCC}
  {
  }

  /** Lookup `j` of `PixelToPulseCodes`: the entry for the bit pair
      `(byte >> (6 - 2j)) & 3` has the pattern of colour bit `7-2j` in its
      high nibble and that of bit `6-2j` in its low nibble. */
  lemma PairAt(byte: bv8, j: nat, pair: bv8)
    requires j < 4
    requires pair == (byte >> (6 - 2 * j)) & 0x3
    ensures pair < 4
    ensures HighNibble(PulseCodeTable[pair as int]) == Pattern(MsbBits(byte)[2 * j])
    ensures LowNibble(PulseCodeTable[pair as int]) == Pattern(MsbBits(byte)[2 * j + 1])
    ensures PulseCodeTable[pair as int] in {0x88, 0x8C, 0xC8, 0xCC}
  {
  }

  /** The four SPI bytes of one colour byte: byte `j` is the table entry for
      the bit pair `(byte >> (6 - 2j)) & 3`. */
  function PixelToPulseCodes(byte: bv8): (r: seq<bv8>)
    ensures |r| == 4
  {
    [
      PulseCodeTable[((byte >> 6) & 0x3) as int],
      PulseCodeTable[((byte >> 4) & 0x3) as int],
      PulseCodeTable[((byte >> 2) & 0x3) as int],
      PulseCodeTable[((byte >> 0) & 0x3) as int]
    ]
  }

  /** Output byte `j` of a channel carries the pattern of colour bit `7-2j`
      in its high nibble and that of bit `6-2j` in its low nibble, so the
      bits go out most significant first; and every output byte is one of
      the four table values, so every nibble starts high. */
  lemma {:induction false} PulseCodesNibbles(byte: bv8)
    ensures forall j :: 0 <= j < 4 ==>
              HighNibble(PixelToPulseCodes(byte)[j]) == Pattern(MsbBits(byte)[2 * j])
              && LowNibble(PixelToPulseCodes(byte)[j]) == Pattern(MsbBits(byte)[2 * j + 1])
    ensures forall j :: 0 <= j < 4 ==> PixelToPulseCodes(byte)[j] in {0x88, 0x8C, 0xC8, 0xCC}
  {
    var r := PixelToPulseCodes(byte);
    forall j | 0 <= j < 4
      ensures HighNibble(r[j]) == Pattern(MsbBits(byte)[2 * j])
      ensures LowNibble(r[j]) == Pattern(MsbBits(byte)[2 * j + 1])
      ensures r[j] in {0x88, 0x8C, 0xC8, 0xCC}
    {
      var pair := (byte >> (6 - 2 * j)) & 0x3;
      PairAt(byte, j, pair);
      assert r[j] == PulseCodeTable[pair as int];
    }
  }

  /** Nibble `k` of a channel's four SPI bytes, in transmission order: the
      high nibble of byte `k / 2` for even `k`, its low nibble for odd `k`. */
  function NibbleAt(bytes: seq<bv8>, k: nat): bv8
    requires |bytes| == 4 && k < 8
  {
    if k % 2 == 0 then HighNibble(bytes[k / 2]) else LowNibble(bytes[k / 2])
  }

  /** The third clocked bit of a pattern: high for a 1 bit, low for a 0 bit. */
  function SampleBit(nibble: bv8): bool
  {
    (nibble & 0x4) != 0
  }

  /** The colour bits obtained by sampling bit 2 of every nibble. */
  function SampledBits(bytes: seq<bv8>): (r: seq<bool>)
    requires |bytes| == 4
    ensures |r| == 8
  {
    seq(8, k requires 0 <= k < 8 => SampleBit(NibbleAt(bytes, k)))
  }

  /** The nibbles of a channel's SPI bytes are the patterns of its bits,
      most significant first. */
  lemma {:induction false} NibblesArePatterns(byte: bv8, k: nat)
    requires k < 8
    ensures NibbleAt(PixelToPulseCodes(byte), k) == Pattern(MsbBits(byte)[k])
  {
    PulseCodesNibbles(byte);
  }

  /** Sampling bit 2 of each nibble, high nibble first, gives the colour
      byte back. */
  lemma {:induction false} SampledRoundTrip(byte: bv8)
    ensures FromBitsMsb(SampledBits(PixelToPulseCodes(byte))) == byte
  {
    var bits := SampledBits(PixelToPulseCodes(byte));
    forall k | 0 <= k < 8
      ensures bits[k] == MsbBits(byte)[k]
    {
      NibblesArePatterns(byte, k);
    }
    assert bits == MsbBits(byte);
    FromBitsMsbOfMsbBits(byte);
  }

  /** The colour bit a received nibble stands for; `None` for a nibble that
      is neither pattern. */
  function PatternToBit(nibble: bv8): Option<bool>
  {
    if nibble == OnePulse then Some(true)
    else if nibble == ZeroPulse then Some(false)
    else None
  }

  /** The colour byte that four SPI bytes spell when every nibble is one of
      the two patterns; `None` otherwise. */
  function PulseCodesToByte(bytes: seq<bv8>): Option<bv8>
  {
    if |bytes| == 4 && forall k :: 0 <= k < 8 ==> PatternToBit(NibbleAt(bytes, k)).Some?
    then Some(FromBitsMsb(seq(8, k requires 0 <= k < 8 => PatternToBit(NibbleAt(bytes, k)).value)))
    else None
  }

  /** Decoding the SPI bytes of any colour byte gives the byte back. */
  lemma {:induction false} PulseCodesRoundTrip(byte: bv8)
    ensures PulseCodesToByte(PixelToPulseCodes(byte)) == Some(byte)
  {
    var r := PixelToPulseCodes(byte);
    forall k | 0 <= k < 8
      ensures PatternToBit(NibbleAt(r, k)) == Some(MsbBits(byte)[k])
    {
      NibblesArePatterns(byte, k);
    }
    var bits := seq(8, k requires 0 <= k < 8 => PatternToBit(NibbleAt(r, k)).value);
    assert bits == MsbBits(byte);
    FromBitsMsbOfMsbBits(byte);
  }

  /** A byte is determined by its two nibbles. */
  lemma NibblesDetermineByte(x: bv8, y: bv8)
    requires HighNibble(x) == HighNibble(y) && LowNibble(x) == LowNibble(y)
    ensures x == y
  {
  }

  /** A nibble that decodes to a bit is that bit's pattern. */
  lemma PatternToBitInverse(nibble: bv8, bit: bool)
    requires PatternToBit(nibble) == Some(bit)
    ensures nibble == Pattern(bit)
  {
  }

  /** The only SPI bytes that decode to `byte` are those of `byte`, so the
      encoding is injective. */
  lemma {:induction false} PulseCodesDecodeUnique(bytes: seq<bv8>, byte: bv8)
    requires PulseCodesToByte(bytes) == Some(byte)
    ensures bytes == PixelToPulseCodes(byte)
  {
    var r := PixelToPulseCodes(byte);
    var bits := seq(8, k requires 0 <= k < 8 => PatternToBit(NibbleAt(bytes, k)).value);
    MsbBitsOfFromBitsMsb(bits);
    forall k | 0 <= k < 8
      ensures NibbleAt(bytes, k) == NibbleAt(r, k)
    {
      PatternToBitInverse(NibbleAt(bytes, k), bits[k]);
      NibblesArePatterns(byte, k);
    }
    forall j | 0 <= j < 4
      ensures bytes[j] == r[j]
    {
      assert HighNibble(bytes[j]) == NibbleAt(bytes, 2 * j) == NibbleAt(r, 2 * j) == HighNibble(r[j]);
      assert LowNibble(bytes[j]) == NibbleAt(bytes, 2 * j + 1) == NibbleAt(r, 2 * j + 1) == LowNibble(r[j]);
      NibblesDetermineByte(bytes[j], r[j]);
    }
  }

  /** The twelve SPI bytes of one pixel: green, then red, then blue. */
  function PixelBytes(p: Pixel): (r: seq<bv8>)
    ensures |r| == BytesPerPixel
  {
    PixelToPulseCodes(p.g) + PixelToPulseCodes(p.r) + PixelToPulseCodes(p.b)
  }

  /** The whole frame buffer for `ps`: the pixels' bytes one after the other. */
  function FrameBytes(ps: seq<Pixel>): (r: seq<bv8>)
    ensures |r| == 12 * |ps|
  {
    if ps == [] then [] else PixelBytes(ps[0]) + FrameBytes(ps[1..])
  }

  /** Chunks laid end to end. */
  function Flatten(chunks: seq<seq<bv8>>): seq<bv8>
  {
    if chunks == [] then [] else chunks[0] + Flatten(chunks[1..])
  }

  /** Laying twelve-byte chunks end to end puts chunk `i` at `12i .. 12i+12`. */
  lemma {:induction false} FlattenTiling(chunks: seq<seq<bv8>>, i: nat, j: nat)
    requires forall c :: c in chunks ==> |c| == 12
    requires i < |chunks| && j < 12
    ensures |Flatten(chunks)| == 12 * |chunks|
    ensures Flatten(chunks)[12 * i + j] == chunks[i][j]
  {
    assert chunks[0] in chunks;
    assert forall c :: c in chunks[1..] ==> c in chunks;
    if |chunks| > 1 {
      FlattenTiling(chunks[1..], if i > 0 then i - 1 else 0, j);
    } else {
      assert Flatten(chunks[1..]) == [];
    }
  }

  /** The frame buffer is the pixels' byte chunks laid end to end. */
  lemma {:induction false} FrameBytesFlatten(ps: seq<Pixel>)
    ensures FrameBytes(ps) == Flatten(seq(|ps|, i requires 0 <= i < |ps| => PixelBytes(ps[i])))
  {
    if ps != [] {
      FrameBytesFlatten(ps[1..]);
      var chunks := seq(|ps|, i requires 0 <= i < |ps| => PixelBytes(ps[i]));
      assert chunks[1..] == seq(|ps| - 1, i requires 0 <= i < |ps| - 1 => PixelBytes(ps[1..][i]));
    }
  }

  /** Pixel `i` occupies bytes `12i .. 12i+12` of the frame buffer. */
  lemma {:induction false} FrameBytesTiling(ps: seq<Pixel>, i: nat, j: nat)
    requires i < |ps| && j < BytesPerPixel
    ensures FrameBytes(ps)[12 * i + j] == PixelBytes(ps[i])[j]
  {
    var chunks := seq(|ps|, k requires 0 <= k < |ps| => PixelBytes(ps[k]));
    FrameBytesFlatten(ps);
    FlattenTiling(chunks, i, j);
  }

  /** Appending a pixel appends its twelve bytes. */
  lemma {:induction false} FrameBytesSnoc(ps: seq<Pixel>, p: Pixel)
    ensures FrameBytes(ps + [p]) == FrameBytes(ps) + PixelBytes(p)
  {
    if ps != [] {
      assert (ps + [p])[1..] == ps[1..] + [p];
      FrameBytesSnoc(ps[1..], p);
    } else {
      assert FrameBytes([p]) == PixelBytes(p) + FrameBytes([]);
    }
  }

  /** Every byte of a frame is one of the four table values; in particular
      no frame byte is 0x00 and every nibble starts high. */
  lemma {:induction false} FrameBytesPatterns(ps: seq<Pixel>)
    ensures forall x :: x in FrameBytes(ps) ==> x in {0x88, 0x8C, 0xC8, 0xCC}
  {
    if ps != [] {
      FrameBytesPatterns(ps[1..]);
      var p := ps[0];
      PulseCodesNibbles(p.g);
      PulseCodesNibbles(p.r);
      PulseCodesNibbles(p.b);
      assert PixelBytes(p) == PixelToPulseCodes(p.g) + PixelToPulseCodes(p.r) + PixelToPulseCodes(p.b);
    }
  }

  /** The pixel twelve SPI bytes stand for; `None` if they are not green,
      red and blue channel codes. */
  function DecodePixel(bytes: seq<bv8>): Option<Pixel>
    requires |bytes| == BytesPerPixel
  {
    match (PulseCodesToByte(bytes[0..4]), PulseCodesToByte(bytes[4..8]), PulseCodesToByte(bytes[8..12]))
    case (Some(g), Some(r), Some(b)) => Some(Pixel(r, g, b))
    case _ => None
  }

  /** The pixels a frame buffer stands for, twelve bytes at a time. */
  function DecodeFrame(bytes: seq<bv8>): Option<seq<Pixel>>
    decreases |bytes|
  {
    if |bytes| == 0 then Some([])
    else if |bytes| < BytesPerPixel then None
    else
      match (DecodePixel(bytes[..BytesPerPixel]), DecodeFrame(bytes[BytesPerPixel..]))
      case (Some(p), Some(rest)) => Some([p] + rest)
      case _ => None
  }

  /** Decoding a frame buffer gives back the pixels it was built from. */
  lemma {:induction false} FrameRoundTrip(ps: seq<Pixel>)
    ensures DecodeFrame(FrameBytes(ps)) == Some(ps)
  {
    if ps != [] {
      var p := ps[0];
      var bytes := FrameBytes(ps);
      assert bytes[..BytesPerPixel] == PixelBytes(p);
      assert bytes[BytesPerPixel..] == FrameBytes(ps[1..]);
      assert PixelBytes(p)[0..4] == PixelToPulseCodes(p.g);
      assert PixelBytes(p)[4..8] == PixelToPulseCodes(p.r);
      assert PixelBytes(p)[8..12] == PixelToPulseCodes(p.b);
      PulseCodesRoundTrip(p.g);
      PulseCodesRoundTrip(p.r);
      PulseCodesRoundTrip(p.b);
      FrameRoundTrip(ps[1..]);
      assert [p] + ps[1..] == ps;
    }
  }

  /** `copy_from_slice` into `buf[start..start+|src|]`: those bytes become
      `src`, every other byte is kept. */
  method CopyIntoBuffer(buf: array<bv8>, start: nat, src: seq<bv8>)
    requires start + |src| <= buf.Length
    modifies buf
    ensures forall k :: 0 <= k < buf.Length ==>
              buf[k] == if start <= k < start + |src| then src[k - start] else old(buf[k])
  {
    for j := 0 to |src|
      invariant forall k :: 0 <= k < buf.Length ==>
                  buf[k] == if start <= k < start + j then src[k - start] else old(buf[k])
    {
      buf[start + j] := src[j];
    }
  }

  /** The body of the fill pass for one 12-byte chunk: green, red and blue
      codes go to chunk bytes 0..4, 4..8 and 8..12. */
  method FillChunk(buf: array<bv8>, start: nat, pixel: Pixel)
    requires start + BytesPerPixel <= buf.Length
    modifies buf
    ensures buf[start..start + BytesPerPixel] == PixelBytes(pixel)
    ensures forall k :: 0 <= k < buf.Length && !(start <= k < start + BytesPerPixel) ==> buf[k] == old(buf[k])
  {
    ghost var chunk := PixelBytes(pixel);
    CopyIntoBuffer(buf, start, PixelToPulseCodes(pixel.g));
    CopyIntoBuffer(buf, start + 4, PixelToPulseCodes(pixel.r));
    CopyIntoBuffer(buf, start + 8, PixelToPulseCodes(pixel.b));
    assert forall k :: 0 <= k < BytesPerPixel ==> buf[start + k] == chunk[k];
  }

  /** The fill pass: the buffer, cut into 12-byte chunks zipped with the
      pixels, becomes exactly the frame for the current pixels; no byte of
      an earlier frame survives. */
  method FillPulseCodes(pixels: array<Pixel>, buf: array<bv8>)
    requires buf.Length == 12 * pixels.Length
    modifies buf
    ensures buf[..] == FrameBytes(pixels[..])
  {
    for i := 0 to pixels.Length
      invariant buf[..12 * i] == FrameBytes(pixels[..i])
    {
      var pixel := pixels[i];
      ghost var before := buf[..12 * i];
      FillChunk(buf, 12 * i, pixel);
      assert buf[..12 * i] == before;
      assert buf[..12 * (i + 1)] == buf[..12 * i] + buf[12 * i..12 * i + BytesPerPixel];
      assert pixels[..i + 1] == pixels[..i] + [pixel];
      FrameBytesSnoc(pixels[..i], pixel);
    }
    assert buf[..] == buf[..12 * pixels.Length];
    assert pixels[..] == pixels[..pixels.Length];
  }

  /** What the driver hands to the SPI engine and the timer, in order. */
  datatype Event = Write(bytes: seq<bv8>) | Delay(micros: nat)

  /** The start-up correction: a one-byte burst of zeros, then a wait long
      enough for the strip to reset. */
  const Startup: seq<Event> := [Write([0]), Delay(ResetMicros)]

  /** A write of one whole frame buffer: all of it, and only pattern bytes. */
  predicate IsFrameWrite(e: Event)
  {
    e.Write? && |e.bytes| == NumSpiBytes && forall x :: x in e.bytes ==> x in {0x88, 0x8C, 0xC8, 0xCC}
  }

  /** The shape of everything the driver ever sends: the start-up burst and
      wait, then per frame one whole-buffer write followed by the frame wait. */
  ghost predicate WellFormedTrace(t: seq<Event>)
  {
    |t| >= 2 && t[..2] == Startup && |t| % 2 == 0
    && forall k :: 2 <= k < |t| ==>
         if k % 2 == 0 then IsFrameWrite(t[k]) else t[k] == Delay(FramePeriodMicros)
  }

  /** In a well-formed trace the start-up burst is the only write that is
      not a whole frame, and the only write with a 0x00 byte: it happens
      exactly once, first, and is followed by the reset wait. */
  lemma {:induction false} StartupBurstOnce(t: seq<Event>, k: nat)
    requires WellFormedTrace(t) && k < |t|
    ensures (t[k].Write? && 0 in t[k].bytes) <==> k == 0
    ensures k == 0 ==> t[1] == Delay(ResetMicros)
  {
  }

  /** The refresh loop's state: the pixel store, the frame buffer (allocated
      once and reused every frame) and the trace of calls made to the SPI
      engine and the timer. */
  class SpiStrip {
    const pixels: array<Pixel>
    const pulsecodes: array<bv8>
    var events: seq<Event>

    ghost predicate Valid()
      reads this
    {
      pixels.Length == NumPixels && pulsecodes.Length == NumSpiBytes && WellFormedTrace(events)
    }

    /** Start-up: black pixels, a zeroed buffer, then the zero burst and the
        reset wait before any frame. */
    constructor ()
      ensures Valid() && fresh(pixels) && fresh(pulsecodes)
      ensures forall i :: 0 <= i < NumPixels ==> pixels[i] == Black
      ensures forall k :: 0 <= k < NumSpiBytes ==> pulsecodes[k] == 0
      ensures events == Startup
    {
      pixels := new Pixel[NumPixels](_ => Black);
      pulsecodes := new bv8[NumSpiBytes](_ => 0);
      events := Startup;
    }

    /** One pass of the refresh loop, with `words` the random words drawn for
        the pixels in order: recolour, re-encode the whole buffer, write it
        in one transfer and wait one period. */
    method Frame(words: seq<bv32>)
      requires Valid() && |words| == NumPixels
      modifies pixels, pulsecodes, this`events
      ensures Valid()
      ensures forall i :: 0 <= i < NumPixels ==> pixels[i] == ColourFromWord(words[i])
      ensures pulsecodes[..] == FrameBytes(pixels[..])
      ensures events == old(events) + [Write(pulsecodes[..]), Delay(FramePeriodMicros)]
    {
      FillColours(pixels, words);
      FillPulseCodes(pixels, pulsecodes);
      FrameBytesPatterns(pixels[..]);
      ghost var before := events;
      events := events + [Write(pulsecodes[..]), Delay(FramePeriodMicros)];
      assert events[..2] == before[..2];
      assert forall k :: 2 <= k < |before| ==> events[k] == before[k];
    }
  }
}
