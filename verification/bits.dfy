/**
 * Bit-level vocabulary shared by both LED backends: testing one bit of a
 * colour byte, and reassembling a byte from its bits read most significant
 * bit first.
 */
module Bits {

  /** Bit `i` of `b` (bit 0 is the least significant), read the way the
      encoders do it: `b & (1 << i) != 0`. */
  function Bit(b: bv8, i: nat): bool
    requires i < 8
  {
    (b & (1 << i)) != 0
  }

  /** The eight bits of `b`, most significant first. */
  function MsbBits(b: bv8): (r: seq<bool>)
    ensures |r| == 8
  {
    seq(8, k requires 0 <= k < 8 => Bit(b, 7 - k))
  }

  /** Shifts one more bit into the low end of an accumulator. */
  function Push(acc: bv8, bit: bool): bv8
  {
    (acc << 1) | (if bit then 1 else 0)
  }

  /** The byte whose bits, most significant first, are `bits` (the last
      eight of them, when there are more). */
  function FromBitsMsb(bits: seq<bool>): bv8
  {
    if |bits| == 0 then 0 else Push(FromBitsMsb(bits[..|bits| - 1]), bits[|bits| - 1])
  }

  lemma FromBitsMsbSnoc(s: seq<bool>, k: nat)
    requires k < |s|
    ensures FromBitsMsb(s[..k + 1]) == Push(FromBitsMsb(s[..k]), s[k])
  {
    assert s[..k + 1][..k] == s[..k];
  }

  /** Unfolds `FromBitsMsb` over all eight positions of an 8-bit sequence. */
  lemma FromBitsMsbUnrolled(s: seq<bool>)
    requires |s| == 8
    ensures FromBitsMsb(s)
         == Push(Push(Push(Push(Push(Push(Push(Push(0, s[0]), s[1]), s[2]), s[3]), s[4]), s[5]), s[6]), s[7])
  {
    assert s[..0] == [];
    FromBitsMsbSnoc(s, 0);
    FromBitsMsbSnoc(s, 1);
    FromBitsMsbSnoc(s, 2);
    FromBitsMsbSnoc(s, 3);
    FromBitsMsbSnoc(s, 4);
    FromBitsMsbSnoc(s, 5);
    FromBitsMsbSnoc(s, 6);
    FromBitsMsbSnoc(s, 7);
    assert s[..8] == s;
  }

  /** Reading the bits of `b` back most significant first gives `b`. */
  lemma {:induction false} FromBitsMsbOfMsbBits(b: bv8)
    ensures FromBitsMsb(MsbBits(b)) == b
  {
    FromBitsMsbUnrolled(MsbBits(b));
  }

  /** Conversely, eight bits are exactly the bits of the byte they spell. */
  lemma {:induction false} MsbBitsOfFromBitsMsb(bits: seq<bool>)
    requires |bits| == 8
    ensures MsbBits(FromBitsMsb(bits)) == bits
  {
    FromBitsMsbUnrolled(bits);
    var b := FromBitsMsb(bits);
    assert Bit(b, 7) == bits[0] && Bit(b, 6) == bits[1] && Bit(b, 5) == bits[2] && Bit(b, 4) == bits[3];
    assert Bit(b, 3) == bits[4] && Bit(b, 2) == bits[5] && Bit(b, 1) == bits[6] && Bit(b, 0) == bits[7];
  }
}
