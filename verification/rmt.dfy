/**
 * The pulse-train backend: every colour bit becomes one pulse code for the
 * remote-control (RMT) peripheral, a pixel becomes a 25-slot block (24 data
 * codes and an end marker), and a frame is handed to the peripheral one
 * block at a time, in pixel order.
 */
module Rmt {
  import opened Options
  import opened Bits
  import opened Pixels

  /** Number of LEDs on the strip this backend drives. */
  const NumPixels: nat := 16

  /** Slots per pixel block: 3 channels of 8 codes, plus the end marker. */
  const BlockSlots: nat := 25

  /** Index of the end-marker slot in every block. */
  const EndSlot: nat := 24

  /** Peripheral clock: 80 MHz with a clock divider of 1, so one tick is 12.5 ns. */
  const TicksPerMicrosecond: nat := 80

  /** Wait before the first frame, at start-up: one second. */
  const StartupDelayMicros: nat := 1_000_000

  /** Wait between two frames: one second. */
  const FramePeriodMicros: nat := 1_000_000

  datatype Level = High | Low

  /** One pulse code: drive `level1` for `length1` ticks, then `level2` for
      `length2` ticks. `End` is the all-zero code that stops transmission.
      The packing of a code into a 32-bit word is left to the peripheral
      driver and not modelled. */
  datatype PulseCode = Pulse(level1: Level, length1: nat, level2: Level, length2: nat) | End

  /** Ticks needed to hold a level for `ns` nanoseconds. */
  function Ticks(ns: nat): nat
  {
    ns * TicksPerMicrosecond / 1000
  }

  /** A 0 bit: 350 ns high, then 600 ns low. */
  const ZeroCode: PulseCode := Pulse(High, 28, Low, 48)

  /** A 1 bit: 700 ns high, then 600 ns low. */
  const OneCode: PulseCode := Pulse(High, 56, Low, 48)

  /** The two data codes agree with the protocol timings at 80 MHz, share
      their low phase, differ only in the length of the high phase (the one
      code's is twice the zero code's) and are both distinct from `End`. */
  lemma {:induction false} CodeTimings()
    ensures ZeroCode == Pulse(High, Ticks(350), Low, Ticks(600))
    ensures OneCode == Pulse(High, Ticks(700), Low, Ticks(600))
    ensures ZeroCode.length2 == OneCode.length2
    ensures OneCode.length1 == 2 * ZeroCode.length1
    ensures ZeroCode != OneCode && ZeroCode != End && OneCode != End
  {
  }

  /** `s` in reverse order (the slice method `reverse`). */
  function Reverse<T>(s: seq<T>): seq<T>
  {
    seq(|s|, k requires 0 <= k < |s| => s[|s| - 1 - k])
  }

  /** Reversing twice gives the sequence back, so `reverse` loses no code
      and adds none. */
  lemma ReverseReverse<T>(s: seq<T>)
    ensures Reverse(Reverse(s)) == s
  {
  }

  /** The eight pulse codes of one colour byte: element `i` of the array
      built first stands for bit `i`, and reversing it puts the most
      significant bit first. */
  function PixelToPulseCodes(byte: bv8): (r: seq<PulseCode>)
    ensures |r| == 8
    ensures forall k :: 0 <= k < 8 ==> r[k] == if Bit(byte, 7 - k) then OneCode else ZeroCode
  {
    var lsbFirst := seq(8, i requires 0 <= i < 8 => if Bit(byte, i) then OneCode else ZeroCode);
    Reverse(lsbFirst)
  }

  /** The bit a received pulse code stands for; `None` for any other code. */
  function CodeToBit(c: PulseCode): Option<bool>
  {
    if c == OneCode then Some(true)
    else if c == ZeroCode then Some(false)
    else None
  }

  /** The byte that eight data codes spell, read most significant bit first;
      `None` for any other sequence of codes. */
  function PulseCodesToByte(codes: seq<PulseCode>): Option<bv8>
  {
    if |codes| == 8 && forall k :: 0 <= k < 8 ==> CodeToBit(codes[k]).Some?
    then Some(FromBitsMsb(seq(8, k requires 0 <= k < 8 => CodeToBit(codes[k]).value)))
    else None
  }

  /** Decoding the codes of any byte gives the byte back. */
  lemma {:induction false} PulseCodesRoundTrip(byte: bv8)
    ensures PulseCodesToByte(PixelToPulseCodes(byte)) == Some(byte)
  {
    var codes := PixelToPulseCodes(byte);
    var bits := seq(8, k requires 0 <= k < 8 => CodeToBit(codes[k]).value);
    assert bits == MsbBits(byte);
    FromBitsMsbOfMsbBits(byte);
  }

  /** The only codes that decode to `byte` are the codes of `byte`, so the
      encoding is injective. */
  lemma {:induction false} PulseCodesDecodeUnique(codes: seq<PulseCode>, byte: bv8)
    requires PulseCodesToByte(codes) == Some(byte)
    ensures codes == PixelToPulseCodes(byte)
  {
    var bits := seq(8, k requires 0 <= k < 8 => CodeToBit(codes[k]).value);
    MsbBitsOfFromBitsMsb(bits);
    forall k | 0 <= k < 8
      ensures codes[k] == PixelToPulseCodes(byte)[k]
    {
      assert bits[k] == Bit(byte, 7 - k);
    }
  }

  /** Byte 0 is eight zero codes and byte 0xFF eight one codes. */
  lemma {:induction false} ExtremeBytes()
    ensures PixelToPulseCodes(0) == seq(8, _ => ZeroCode)
    ensures PixelToPulseCodes(0xFF) == seq(8, _ => OneCode)
  {
  }

  /** The 24 data codes of one pixel: green, then red, then blue. */
  function PixelBlock(p: Pixel): (r: seq<PulseCode>)
    ensures |r| == EndSlot
  {
    PixelToPulseCodes(p.g) + PixelToPulseCodes(p.r) + PixelToPulseCodes(p.b)
  }

  /** The pixel a received 25-slot block stands for: green in slots 0..8,
      red in 8..16, blue in 16..24 and the end marker in slot 24. */
  function DecodeBlock(block: seq<PulseCode>): Option<Pixel>
  {
    if |block| != BlockSlots || block[EndSlot] != End then None
    else
      match (PulseCodesToByte(block[0..8]), PulseCodesToByte(block[8..16]), PulseCodesToByte(block[16..24]))
      case (Some(g), Some(r), Some(b)) => Some(Pixel(r, g, b))
      case _ => None
  }

  /** A pixel's block followed by the end marker decodes to that pixel. */
  lemma {:induction false} BlockRoundTrip(p: Pixel)
    ensures DecodeBlock(PixelBlock(p) + [End]) == Some(p)
  {
    var block := PixelBlock(p) + [End];
    assert block[0..8] == PixelToPulseCodes(p.g);
    assert block[8..16] == PixelToPulseCodes(p.r);
    assert block[16..24] == PixelToPulseCodes(p.b);
    PulseCodesRoundTrip(p.g);
    PulseCodesRoundTrip(p.r);
    PulseCodesRoundTrip(p.b);
  }

  /** The only block that decodes to `p` is `p`'s own block. */
  lemma {:induction false} BlockDecodeUnique(block: seq<PulseCode>, p: Pixel)
    requires DecodeBlock(block) == Some(p)
    ensures block == PixelBlock(p) + [End]
  {
    PulseCodesDecodeUnique(block[0..8], p.g);
    PulseCodesDecodeUnique(block[8..16], p.r);
    PulseCodesDecodeUnique(block[16..24], p.b);
    assert block == block[0..8] + block[8..16] + block[16..24] + [block[EndSlot]];
  }

  /** `copy_from_slice` into part of block `i`: slots `start..start+|src|`
      of that block become `src`, every other slot is kept. */
  method CopyIntoBlock(codes: array2<PulseCode>, i: nat, start: nat, src: seq<PulseCode>)
    requires i < codes.Length0 && start + |src| <= codes.Length1
    modifies codes
    ensures forall k :: start <= k < start + |src| ==> codes[i, k] == src[k - start]
    ensures forall q, k ::
              (0 <= q < codes.Length0 && 0 <= k < codes.Length1 && !(q == i && start <= k < start + |src|))
              ==> codes[q, k] == old(codes[q, k])
  {
    for j := 0 to |src|
      invariant forall k :: start <= k < start + j ==> codes[i, k] == src[k - start]
      invariant forall q, k ::
                  (0 <= q < codes.Length0 && 0 <= k < codes.Length1 && !(q == i && start <= k < start + j))
                  ==> codes[q, k] == old(codes[q, k])
    {
      codes[i, start + j] := src[j];
    }
  }

  /** The body of the fill pass for pixel `i`: green, red and blue codes
      are copied into slots 0..8, 8..16 and 16..24 of block `i`. */
  method FillBlock(codes: array2<PulseCode>, i: nat, pixel: Pixel)
    requires i < codes.Length0 && codes.Length1 == BlockSlots
    modifies codes
    ensures forall k :: 0 <= k < EndSlot ==> codes[i, k] == PixelBlock(pixel)[k]
    ensures forall q, k ::
              (0 <= q < codes.Length0 && 0 <= k < BlockSlots && !(q == i && k < EndSlot))
              ==> codes[q, k] == old(codes[q, k])
  {
    ghost var block := PixelBlock(pixel);
    CopyIntoBlock(codes, i, 0, PixelToPulseCodes(pixel.g));
    assert forall k :: 0 <= k < 8 ==> codes[i, k] == block[k];
    CopyIntoBlock(codes, i, 8, PixelToPulseCodes(pixel.r));
    assert forall k :: 0 <= k < 16 ==> codes[i, k] == block[k];
    CopyIntoBlock(codes, i, 16, PixelToPulseCodes(pixel.b));
  }

  /** The fill pass: block `i` receives the 24 data codes of pixel `i`;
      the end-marker slot of every block is never written. */
  method FillPulseCodes(pixels: array<Pixel>, codes: array2<PulseCode>)
    requires codes.Length0 == pixels.Length && codes.Length1 == BlockSlots
    modifies codes
    ensures forall i, k :: 0 <= i < pixels.Length && 0 <= k < EndSlot ==> codes[i, k] == PixelBlock(pixels[i])[k]
    ensures forall i :: 0 <= i < codes.Length0 ==> codes[i, EndSlot] == old(codes[i, EndSlot])
  {
    for i := 0 to pixels.Length
      invariant forall q, k :: 0 <= q < i && 0 <= k < EndSlot ==> codes[q, k] == PixelBlock(pixels[q])[k]
      invariant forall q :: 0 <= q < codes.Length0 ==> codes[q, EndSlot] == old(codes[q, EndSlot])
    {
      FillBlock(codes, i, pixels[i]);
    }
  }

  /** What the driver hands to the peripheral and the timer, in order. */
  datatype Event = Transmit(block: seq<PulseCode>) | Delay(micros: nat)

  /** Everything one frame sends for the random words `words`: the block of
      each pixel in pixel order, one block per transmit call, then the wait
      before the next frame. */
  function FrameEvents(words: seq<bv32>): seq<Event>
  {
    seq(|words|, i requires 0 <= i < |words| => Transmit(PixelBlock(ColourFromWord(words[i])) + [End]))
      + [Delay(FramePeriodMicros)]
  }

  /** A frame transmits exactly one block per pixel, in pixel order, each of
      which decodes to that pixel's colour, and then waits one period. */
  lemma {:induction false} FrameEventsDecode(words: seq<bv32>)
    ensures |FrameEvents(words)| == |words| + 1
    ensures forall i :: 0 <= i < |words| ==>
              FrameEvents(words)[i].Transmit? && DecodeBlock(FrameEvents(words)[i].block) == Some(ColourFromWord(words[i]))
    ensures FrameEvents(words)[|words|] == Delay(FramePeriodMicros)
  {
    forall i | 0 <= i < |words|
      ensures FrameEvents(words)[i].Transmit? && DecodeBlock(FrameEvents(words)[i].block) == Some(ColourFromWord(words[i]))
    {
      BlockRoundTrip(ColourFromWord(words[i]));
    }
  }

  /** The refresh loop's state: the pixel store, the pulse-code blocks
      (allocated once and reused every frame) and the trace of calls made
      to the peripheral and the timer. */
  class RmtStrip {
    const pixels: array<Pixel>
    const pulsecodes: array2<PulseCode>
    var events: seq<Event>

    ghost predicate Valid()
      reads pulsecodes
    {
      pixels.Length == NumPixels
      && pulsecodes.Length0 == NumPixels && pulsecodes.Length1 == BlockSlots
      && forall i :: 0 <= i < NumPixels ==> pulsecodes[i, EndSlot] == End
    }

    /** Block `i` as the peripheral receives it. */
    function Block(i: nat): (r: seq<PulseCode>)
      reads pulsecodes
      requires i < pulsecodes.Length0 && pulsecodes.Length1 == BlockSlots
      ensures |r| == BlockSlots
    {
      seq(BlockSlots, k requires 0 <= k < BlockSlots reads pulsecodes => pulsecodes[i, k])
    }

    /** Start-up: wait one second, then allocate black pixels and blocks of
        end markers. */
    constructor ()
      ensures Valid() && fresh(pixels) && fresh(pulsecodes)
      ensures forall i :: 0 <= i < NumPixels ==> pixels[i] == Black
      ensures forall i, k :: 0 <= i < NumPixels && 0 <= k < BlockSlots ==> pulsecodes[i, k] == End
      ensures events == [Delay(StartupDelayMicros)]
    {
      events := [Delay(StartupDelayMicros)];
      pixels := new Pixel[NumPixels](_ => Black);
      pulsecodes := new PulseCode[NumPixels, BlockSlots]((_, _) => End);
    }

    /** Hands every block to the peripheral, one call per pixel, in order. */
    method TransmitBlocks()
      requires Valid()
      modifies this`events
      ensures |events| == |old(events)| + NumPixels
      ensures events[..|old(events)|] == old(events)
      ensures forall i :: 0 <= i < NumPixels ==> events[|old(events)| + i] == Transmit(Block(i))
    {
      ghost var before := events;
      for i := 0 to NumPixels
        invariant |events| == |before| + i
        invariant events[..|before|] == before
        invariant forall q :: 0 <= q < i ==> events[|before| + q] == Transmit(Block(q))
      {
        events := events + [Transmit(Block(i))];
      }
    }

    /** One pass of the refresh loop, with `words` the random words drawn for
        the pixels in order. */
    method Frame(words: seq<bv32>)
      requires Valid() && |words| == NumPixels
      modifies pixels, pulsecodes, this`events
      ensures Valid()
      ensures forall i :: 0 <= i < NumPixels ==> pixels[i] == ColourFromWord(words[i])
      ensures forall i :: 0 <= i < NumPixels ==> Block(i) == PixelBlock(pixels[i]) + [End]
      ensures events == old(events) + FrameEvents(words)
    {
      FillColours(pixels, words);
      FillPulseCodes(pixels, pulsecodes);
      forall i | 0 <= i < NumPixels
        ensures Block(i) == PixelBlock(pixels[i]) + [End]
      {
        assert Block(i)[EndSlot] == End;
      }
      ghost var before := events;
      TransmitBlocks();
      events := events + [Delay(FramePeriodMicros)];
      ghost var expected := before + FrameEvents(words);
      assert |events| == |expected|;
      forall n | 0 <= n < |events|
        ensures events[n] == expected[n]
      {
        if n < |before| {
          assert events[n] == events[..|before|][n];
        } else if n < |before| + NumPixels {
          var i := n - |before|;
          assert events[n] == Transmit(Block(i));
        }
      }
    }
  }
}
