/** Single-bit get, set, clear and flip for every integer width. */
module BitwiseKit {
  /** The widths the kit has overloads for. A signed and an unsigned type of
      the same width are handled alike, on their two's complement bit pattern. */
  datatype Width = W8 | W16 | W32 | W64

  function Bits(w: Width): bv64
  {
    match w
    case W8 => 8
    case W16 => 16
    case W32 => 32
    case W64 => 64
  }

  function Mask(w: Width): bv64
  {
    match w
    case W8 => 0xFF
    case W16 => 0xFFFF
    case W32 => 0xFFFF_FFFF
    case W64 => 0xFFFF_FFFF_FFFF_FFFF
  }

  /** `v` is the bit pattern of a value of width `w`. */
  predicate Fits(v: bv64, w: Width) {
    v & !Mask(w) == 0
  }

  /** The cast back to the overload's own type. */
  function Narrow(v: bv64, w: Width): bv64 {
    v & Mask(w)
  }

  /** Bit `bit` of the width survives the cast. */
  lemma {:induction false} BitInMask(w: Width, bit: bv64)
    requires bit < Bits(w)
    ensures (1 << bit) & Mask(w) == 1 << bit
  {
    match w
    case W8 =>
    case W16 =>
    case W32 =>
    case W64 =>
  }

  /** Bit `bit` of v: since 1 << bit has one bit set, v & (1 << bit) is
      either zero or that whole mask. */
  predicate GetBit(v: bv64, bit: bv64): (b: bool)
    requires bit < 64
    ensures b <==> v & (1 << bit) == 1 << bit
  {
    v & (1 << bit) != 0
  }

  function SetBit0(v: bv64, w: Width, bit: bv64): (r: bv64)
    requires Fits(v, w) && bit < Bits(w)
    ensures Fits(r, w)
  {
    Narrow(v & !(1 << bit), w)
  }

  function SetBit1(v: bv64, w: Width, bit: bv64): (r: bv64)
    requires Fits(v, w) && bit < Bits(w)
    ensures Fits(r, w)
  {
    Narrow(v | (1 << bit), w)
  }

  function ReverseBit(v: bv64, w: Width, bit: bv64): (r: bv64)
    requires Fits(v, w) && bit < Bits(w)
    ensures Fits(r, w)
  {
    Narrow(v ^ (1 << bit), w)
  }

  function SetBit(v: bv64, w: Width, bit: bv64, is1: bool): (r: bv64)
    requires Fits(v, w) && bit < Bits(w)
    ensures Fits(r, w) && GetBit(r, bit) == is1
  {
    if is1 then SetBit1(v, w, bit) else SetBit0(v, w, bit)
  }

  lemma {:induction false} SetBit1Sets(v: bv64, w: Width, bit: bv64)
    requires Fits(v, w) && bit < Bits(w)
    ensures GetBit(SetBit1(v, w, bit), bit)
  {
    BitInMask(w, bit);
  }

  lemma {:induction false} SetBit0Clears(v: bv64, w: Width, bit: bv64)
    requires Fits(v, w) && bit < Bits(w)
    ensures !GetBit(SetBit0(v, w, bit), bit)
  {
  }

  lemma {:induction false} SetBit0KeepsOthers(v: bv64, w: Width, bit: bv64, other: bv64)
    requires Fits(v, w) && bit < Bits(w) && other < Bits(w) && other != bit
    ensures SetBit0(v, w, bit) & (1 << other) == v & (1 << other)
  {
  }

  lemma {:induction false} SetBit1KeepsOthers(v: bv64, w: Width, bit: bv64, other: bv64)
    requires Fits(v, w) && bit < Bits(w) && other < Bits(w) && other != bit
    ensures SetBit1(v, w, bit) & (1 << other) == v & (1 << other)
  {
  }

  lemma {:induction false} ReverseBitKeepsOthers(v: bv64, w: Width, bit: bv64, other: bv64)
    requires Fits(v, w) && bit < Bits(w) && other < Bits(w) && other != bit
    ensures ReverseBit(v, w, bit) & (1 << other) == v & (1 << other)
  {
  }

  lemma {:induction false} ReverseBitFlips(v: bv64, w: Width, bit: bv64)
    requires Fits(v, w) && bit < Bits(w)
    ensures ReverseBit(v, w, bit) & (1 << bit) == (v & (1 << bit)) ^ (1 << bit)
  {
    BitInMask(w, bit);
  }

  lemma {:induction false} ReverseBitInvolution(v: bv64, w: Width, bit: bv64)
    requires Fits(v, w) && bit < Bits(w)
    ensures ReverseBit(ReverseBit(v, w, bit), w, bit) == v
  {
  }

  lemma {:induction false} SetBit0Idempotent(v: bv64, w: Width, bit: bv64)
    requires Fits(v, w) && bit < Bits(w)
    ensures SetBit0(SetBit0(v, w, bit), w, bit) == SetBit0(v, w, bit)
  {
  }

  lemma {:induction false} SetBit1Idempotent(v: bv64, w: Width, bit: bv64)
    requires Fits(v, w) && bit < Bits(w)
    ensures SetBit1(SetBit1(v, w, bit), w, bit) == SetBit1(v, w, bit)
  {
  }
}
