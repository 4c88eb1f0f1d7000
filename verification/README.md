# WS2812B LED encoder and pin tester, modelled in Dafny

This project models the two WS2812B ("NeoPixel") drivers of the ESP32-C3 example
firmware, along with its pin tester.

- **Pulse-code (RMT) backend.** This is `roms/ws2812b-rmt/src/main.rs`. Each colour bit becomes one pulse code for the
  remote-control peripheral: 28 ticks high and 48 low for a 0, and 56 high and 48 low for a 1, at 80 MHz.
  Each pixel becomes a 25-slot block: green, red and blue, eight codes each, most significant bit first,
  followed by an end marker. Each frame is handed to the peripheral one block per call, in pixel order.
- **Oversampled-SPI backend.** This is `roms/ws2812b-spi/src/main.rs`. Each colour bit becomes a 4-bit pattern:
  `1000` for a 0 and `1100` for a 1. Two patterns are packed into each byte through a 4-entry table, so a
  channel byte becomes 4 SPI bytes and a pixel becomes 12. The whole frame is one flat buffer of
  `NUM_PIXELS * 12` bytes, sent in a single write. Before the first frame, the driver writes a single zero byte
  and then waits 100 µs.
- **Pin tester.** This is `roms/pin-tester/src/main.rs`. `test_pins` clears a bounded vector and then pushes
  every pin whose level differs from its pull default. A pulled-up pin that reads low is tagged `"low"`.
  A pulled-down or floating pin that reads high is tagged `"high"`.

Files and modules:

- `options.dfy` (`Options`): the `Option` type that the decoders return.
- `bits.dfy` (`Bits`): the bit test `b & (1 << i) != 0`, and reassembly of a byte from its bits, most significant
  first. It proves that reassembly and splitting into bits are inverse to each other.
- `pixels.dfy` (`Pixels`): the `Pixel` record, which both drivers declare identically, and the demo colour pass.
- `rmt.dfy` (`Rmt`), `spi.dfy` (`Spi`), `pin_tester.dfy` (`PinTester`): one module per core source file.

Colour bytes are `bv8`, and the random word is `bv32`. The casts `as u8` and the masks `& 0x7` are written out
as explicit bit operations. Each encoder is a pure function. Each encoder has a decoder beside it, and two
lemmas tie them together. The first shows that decoding the output gives back the input. The second shows
that the only input that decodes to a given value is that value's own encoding.

The in-place loops of `main` are methods over arrays. They are the colour fill, the pulse-code fill into the
`[[PulseCode; 25]; NUM_PIXELS]` array (an `array2`), and the SPI fill over 12-byte chunks of the flat buffer.
Each method is proved against a specification function. The refresh loop of each driver is a class
(`RmtStrip`, `SpiStrip`). Its fields are the pixel store, the encoded buffer, and an `events` trace of the
calls made to the peripheral and the timer.

## Model

| member | source | states |
|---|---|---|
| `Pixels.ColourFromWord` | roms/ws2812b-rmt/src/main.rs:72-77 | red, green and blue are bits 0-2, 8-10 and 16-18 of the random word, so every channel is at most 7 |
| `Pixels.FillColours` | roms/ws2812b-spi/src/main.rs:83-88 | after the pass, pixel i has the colour of the i-th random word; this is the same loop as ws2812b-rmt/src/main.rs:72-77 |
| `Rmt.CodeTimings` | roms/ws2812b-rmt/src/main.rs:111-126 | the zero code is 350 ns high then 600 ns low, and the one code is 700 ns high then 600 ns low, at 80 ticks per µs; both codes share the low time, the one code's high time is twice the zero code's, and both differ from the end marker |
| `Rmt.PixelToPulseCodes` | roms/ws2812b-rmt/src/main.rs:109-130 | exactly 8 codes; code k is the one code iff bit 7-k of the byte is set, and the zero code otherwise (MSB first, obtained by building LSB-first and reversing) |
| `Rmt.ReverseReverse` | roms/ws2812b-rmt/src/main.rs:128 | reversing the code array twice gives it back, so the reversal drops no code and adds none |
| `Rmt.PulseCodesRoundTrip` | roms/ws2812b-rmt/src/main.rs:109-130 | mapping each code back to a bit and reading the bits MSB-first gives every byte back |
| `Rmt.PulseCodesDecodeUnique` | roms/ws2812b-rmt/src/main.rs:127-128 | the only 8 codes that decode to a byte are that byte's codes, so the encoding is injective |
| `Rmt.ExtremeBytes` | roms/ws2812b-rmt/src/main.rs:127 | byte 0 becomes eight zero codes and 0xFF becomes eight one codes, with no special case |
| `Rmt.BlockRoundTrip` | roms/ws2812b-rmt/src/main.rs:79-83 | a pixel's 24 codes plus the end marker decode to that pixel: slots 0..8 to green, 8..16 to red, 16..24 to blue |
| `Rmt.BlockDecodeUnique` | roms/ws2812b-rmt/src/main.rs:79-83 | the only 25-slot block that decodes to a pixel is that pixel's block with the end marker in slot 24 |
| `Rmt.CopyIntoBlock` | roms/ws2812b-rmt/src/main.rs:80-82 | `copy_from_slice` into one block: the target slots receive the source, and every other slot of every block is unchanged |
| `Rmt.FillBlock` | roms/ws2812b-rmt/src/main.rs:80-82 | slots 0..24 of block i become the pixel's green, red and blue codes; slot 24 and all other blocks are unchanged |
| `Rmt.FillPulseCodes` | roms/ws2812b-rmt/src/main.rs:79-83 | after the fill, slots 0..24 of every block i hold pixel i's codes, and slot 24 of every block keeps its previous content |
| `Rmt.FrameEventsDecode` | roms/ws2812b-rmt/src/main.rs:85-105 | a frame makes one transmit call per pixel, in pixel order; each transmitted block decodes to that pixel's colour; the last event is the one-second wait |
| `Rmt.RmtStrip.constructor` | roms/ws2812b-rmt/src/main.rs:48-69 | after the one-second start-up wait (its own constant, separate from the frame period), all pixels are black and every slot of every block is the end marker |
| `Rmt.RmtStrip.TransmitBlocks` | roms/ws2812b-rmt/src/main.rs:85-103 | appends one transmit event per block, for blocks 0..NUM_PIXELS-1 in order, each carrying the block's current 25 slots |
| `Rmt.RmtStrip.Frame` | roms/ws2812b-rmt/src/main.rs:71-106 | one refresh pass: the pixels take the colours of the random words; every block becomes its pixel's codes followed by the end marker (the marker survives every frame); the trace grows by exactly the frame's events |
| `Spi.TableEntry` | roms/ws2812b-spi/src/main.rs:102-107 | table entry n holds the pattern of n's high bit in its high nibble and the pattern of n's low bit in its low nibble, and is one of 0x88, 0x8C, 0xC8, 0xCC |
| `Spi.PairAt` | roms/ws2812b-spi/src/main.rs:108-113 | the lookup of `(byte >> (6-2j)) & 3` has the pattern of bit 7-2j in its high nibble and the pattern of bit 6-2j in its low nibble |
| `Spi.PixelToPulseCodes` | roms/ws2812b-spi/src/main.rs:101-114 | each channel byte becomes exactly 4 SPI bytes |
| `Spi.PulseCodesNibbles` | roms/ws2812b-spi/src/main.rs:101-114 | in output byte j, the high nibble is the pattern of bit 7-2j and the low nibble is the pattern of bit 6-2j (`1100` for 1, `1000` for 0); every output byte is 0x88, 0x8C, 0xC8 or 0xCC |
| `Spi.NibblesArePatterns` | roms/ws2812b-spi/src/main.rs:101-114 | nibble k of the output, in transmission order, is the pattern of bit 7-k of the byte |
| `Spi.SampledRoundTrip` | roms/ws2812b-spi/src/main.rs:101-114 | taking bit 2 of each nibble, high nibble first, across the 4 bytes gives every byte back |
| `Spi.PulseCodesRoundTrip` | roms/ws2812b-spi/src/main.rs:101-114 | decoding each nibble as a pattern gives every byte back |
| `Spi.PulseCodesDecodeUnique` | roms/ws2812b-spi/src/main.rs:101-114 | the only 4 SPI bytes that decode to a byte are that byte's own, so the encoding is injective |
| `Spi.FrameBytesTiling` | roms/ws2812b-spi/src/main.rs:90-94 | pixel i occupies bytes 12i..12i+12 of the buffer: green at +0..4, red at +4..8, blue at +8..12 |
| `Spi.FrameBytesSnoc` | roms/ws2812b-spi/src/main.rs:90-94 | adding a pixel to the store adds exactly that pixel's 12 bytes to the end of the frame |
| `Spi.FrameBytesPatterns` | roms/ws2812b-spi/src/main.rs:90-94 | every byte of a data frame is one of the four table values, so 0x00 never appears in a frame |
| `Spi.FrameRoundTrip` | roms/ws2812b-spi/src/main.rs:90-94 | decoding a frame buffer 12 bytes at a time gives back the pixels it was built from |
| `Spi.CopyIntoBuffer` | roms/ws2812b-spi/src/main.rs:91-93 | `copy_from_slice` into the buffer: the target bytes receive the source, and all other bytes are unchanged |
| `Spi.FillChunk` | roms/ws2812b-spi/src/main.rs:91-93 | the 12-byte chunk becomes the pixel's green, red and blue bytes, and all other bytes are unchanged |
| `Spi.FillPulseCodes` | roms/ws2812b-spi/src/main.rs:90-94 | after the fill, the whole `NUM_PIXELS*12` buffer equals the frame for the current pixels, so no byte from an earlier frame survives |
| `Spi.StartupBurstOnce` | roms/ws2812b-spi/src/main.rs:79-97 | in every trace the driver can produce, the one-byte zero write happens exactly once, comes first, and is followed by the 100 µs wait; every later write is a whole data frame |
| `Spi.SpiStrip.constructor` | roms/ws2812b-spi/src/main.rs:67-80 | black pixels and a zeroed buffer, then the zero-byte write and the 100 µs wait, before any frame |
| `Spi.SpiStrip.Frame` | roms/ws2812b-spi/src/main.rs:82-98 | one refresh pass: the pixels take the colours of the random words; the buffer becomes their frame; exactly one whole-buffer write and the one-second wait are appended; the trace stays well formed |
| `PinTester.EntryTags` | roms/pin-tester/src/main.rs:86-92 | a recorded pin is tagged "low" iff it is pulled up and reads low, and "high" iff it is pulled down or floating and reads high |
| `PinTester.RecordedEntriesAppend` | roms/pin-tester/src/main.rs:85-95 | recording distributes over concatenation of the pin list, so entries keep the order of the pins |
| `PinTester.RecordedEntriesMembership` | roms/pin-tester/src/main.rs:85-95 | an entry is recorded iff some pin read away from its pull produced it, so no other pin is recorded |
| `PinTester.RecordedEntriesLength` | roms/pin-tester/src/main.rs:80-82 | there are never more entries than pins, which is also the vector's capacity N |
| `PinTester.RecordedEntriesDistinct` | roms/pin-tester/src/main.rs:85-95 | when the pins have distinct numbers, each pin appears at most once among the entries |
| `PinTester.HighPins.Clear` | roms/pin-tester/src/main.rs:84 | the vector becomes empty |
| `PinTester.HighPins.Push` | roms/pin-tester/src/main.rs:88 | a push succeeds iff the vector is below capacity, and then appends the entry; otherwise the vector is unchanged |
| `PinTester.TestPins` | roms/pin-tester/src/main.rs:80-96 | after the pass, the vector holds exactly the entries of the current readings, in pin order, whatever it held before; no push was refused |

## Left out

- The bit layout of a pulse code in a 32-bit word (`PulseCode::new` / `PulseCode::empty`) belongs to the peripheral library. A code is modelled as an abstract (level, ticks, level, ticks) value, and the end marker as a separate `End` value. Tick counts are `nat`, not the peripheral's 15-bit fields.
- Peripheral set-up is not modelled: RMT channel configuration, SPI/DMA construction and buffers, the choice of 2857 kHz for the SPI clock, GPIO assignment and logging.
- The random number generator is not modelled. The words it would produce, one per pixel per frame, are a parameter of `FillColours` and `Frame`.
- Awaits, timers and the executor appear only as `Transmit`/`Write`/`Delay` events in the trace. Real time is not modelled. This includes the documented risk that another task delays the next RMT block past the strip's reset threshold, which cannot be stated as a sequential contract.
- Transmission errors are not modelled. The drivers call `.unwrap()` on every transmit and write, so an error ends the program. There is no log-and-continue path and no partial-frame path. The model takes every call to succeed.
- The pin tester's construction of its pin array is not modelled. That construction is chosen by macros and `cfg` features. The hardware level reads are not modelled either: each pin is given as a reading (number, pull, level) taken during the pass. The surrounding `main` loop, which prints and sleeps, is also left out.
- The infinite refresh loops are modelled one pass at a time, as `Frame`. `NUM_PIXELS` is fixed at 16 (RMT) and 600 (SPI), as in the source. The fill methods themselves work for any number of pixels.
- Transmission and write errors are not propagated to the frame loop or logged: the code unwraps every result, so an error ends the program, and the model treats every call as succeeding. The pixel counts are fixed constants, so the strip is never empty, and the settling wait after the start-up burst is fixed at 100 µs, as in the code.
