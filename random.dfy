/** The Lehmer generator `Random` (a mutable struct holding one 32-bit seed)
    and its derived draws. Floating values are modelled as exact reals. */
module Randoms {
  import opened Ints

  /** The Lehmer modulus 2^31 - 1, a prime, and the multiplier. */
  const Modulus := 2147483647
  const Multiplier := 48271

  /** The seed after one Lehmer step: the uint seed is first folded into
      [1, Modulus - 1], then multiplied modulo Modulus, then lowered by one. */
  function NextSeed(seed: uint32): (r: uint32)
    ensures 0 <= r <= Modulus - 2
  {
    var a := seed % (Modulus - 1) + 1;
    ProductFitsIn64Bits(a);
    LehmerProductNonZero(a);
    (a * Multiplier) % Modulus - 1
  }

  /** The intermediate product of NextSeed never exceeds the unsigned 64-bit
      range, so the C# `ulong` arithmetic is exact. */
  lemma ProductFitsIn64Bits(a: int)
    requires 1 <= a <= Modulus - 1
    ensures a * Multiplier < 0x1_0000_0000_0000_0000
  {
  }

  /** Because Modulus is prime and neither factor is a multiple of it, the
      product is never 0 modulo Modulus, so the final `- 1` never wraps. */
  lemma LehmerProductNonZero(a: int)
    requires 1 <= a <= Modulus - 1
    ensures (a * Multiplier) % Modulus != 0
  {
  }

  /** Next01's value for a seed just produced by NextSeed. */
  function Unit(seed: uint32): real {
    seed as real / (Modulus - 1) as real
  }

  /** The value of Range(int, int) as written: the width `max - min` and the
      final sum are C# int arithmetic and wrap around. */
  function RangeAsWritten(minValue: int32, maxValue: int32, x: real): int32 {
    Wrap32(minValue + Scaled(Wrap32(maxValue - minValue), x))
  }

  /** `(int)(width * x)`: the part of the width a unit draw selects. */
  function Scaled(width: int, x: real): int {
    Truncate(width as real * x)
  }

  /** Range(int, int) with the width computed without overflow. */
  function RangeIntended(minValue: int32, maxValue: int32, x: real): int {
    minValue + Scaled(maxValue - minValue, x)
  }

  /** For min < max and a unit draw, the intended value lies in [min, max). */
  lemma RangeIntendedInRange(minValue: int32, maxValue: int32, x: real)
    requires minValue < maxValue && 0.0 <= x < 1.0
    ensures minValue <= RangeIntended(minValue, maxValue, x) < maxValue
  {
    ScaledTruncateBelow(maxValue - minValue, x);
  }

  /** A truncated fraction of a positive width stays below the width. */
  lemma ScaledTruncateBelow(d: int, x: real)
    requires 0 < d && 0.0 <= x < 1.0
    ensures 0 <= Scaled(d, x) < d
  {
    var y := d as real * x;
    ScaledBelow(d as real, x);
    var t := Truncate(y);
    assert t as real <= y;
  }

  lemma ScaledBelow(w: real, x: real)
    requires 0.0 < w && 0.0 <= x < 1.0
    ensures 0.0 <= w * x < w
  {
    assert w * (1.0 - x) > 0.0;
  }

  /** As long as max - min fits in an int, the code as written computes the
      intended value. */
  lemma RangeAsWrittenWhenNoOverflow(minValue: int32, maxValue: int32, x: real)
    requires minValue < maxValue && maxValue - minValue < 0x8000_0000 && 0.0 <= x < 1.0
    ensures RangeAsWritten(minValue, maxValue, x) == RangeIntended(minValue, maxValue, x)
  {
    WidthDoesNotWrap(minValue, maxValue, x);
    RangeIntendedInRange(minValue, maxValue, x);
  }

  lemma WidthDoesNotWrap(minValue: int32, maxValue: int32, x: real)
    requires minValue < maxValue && maxValue - minValue < 0x8000_0000
    ensures RangeAsWritten(minValue, maxValue, x) == Wrap32(RangeIntended(minValue, maxValue, x))
  {
    assert Wrap32(maxValue - minValue) == maxValue - minValue;
  }

  /** A range wider than int.MaxValue wraps the width negative: Range(-2,
      int.MaxValue) on a generator seeded with 0 returns -48272, below min. */
  lemma RangeAsWrittenEscapes()
    ensures NextSeed(0) == 48270
    ensures RangeAsWritten(-2, 0x7FFF_FFFF, Unit(NextSeed(0))) == -48272
  {
    assert Wrap32(0x7FFF_FFFF - -2) == -0x7FFF_FFFF;
    assert -0x7FFF_FFFF as real * Unit(48270) == -(0x7FFF_FFFF * 48270) as real / 2147483646.0;
  }

  /** The `Random` struct: its only state is `seed`. */
  class Random {
    var seed: uint32

    /** Create(uint seed). */
    constructor Create(seed: uint32)
      ensures this.seed == seed
    {
      this.seed := seed;
    }

    /** Next(): one Lehmer step. */
    method Next()
      modifies this
      ensures seed == NextSeed(old(seed))
    {
      seed := NextSeed(seed);
    }

    /** Next01(): advances the seed once and returns seed / 2147483646. */
    method Next01() returns (r: real)
      modifies this
      ensures seed == NextSeed(old(seed)) && r == Unit(seed)
      ensures 0.0 <= r < 1.0
    {
      Next();
      r := seed as real / 2147483646.0;
    }

    /** Range(int, int) as written. */
    method Range(minValue: int32, maxValue: int32) returns (r: int32)
      modifies this
      ensures seed == NextSeed(old(seed))
      ensures r == RangeAsWritten(minValue, maxValue, Unit(seed))
      ensures minValue < maxValue && maxValue - minValue < 0x8000_0000 ==> minValue <= r < maxValue
    {
      var x := Next01();
      r := RangeAsWritten(minValue, maxValue, x);
      if minValue < maxValue && maxValue - minValue < 0x8000_0000 {
        RangeAsWrittenWhenNoOverflow(minValue, maxValue, x);
        RangeIntendedInRange(minValue, maxValue, x);
      }
    }

    /** Range(int, int) with the width taken in 64-bit arithmetic, which keeps
        the result in [min, max) for every min < max. */
    method RangeCorrected(minValue: int32, maxValue: int32) returns (r: int32)
      requires minValue < maxValue
      modifies this
      ensures seed == NextSeed(old(seed))
      ensures r == RangeIntended(minValue, maxValue, Unit(seed))
    {
      var x := Next01();
      RangeIntendedInRange(minValue, maxValue, x);
      r := RangeIntended(minValue, maxValue, x);
    }

    /** Test(probability): one draw, true when it falls below `probability`. */
    method Test(probability: real) returns (r: bool)
      modifies this
      ensures seed == NextSeed(old(seed))
      ensures r <==> Unit(seed) < probability
    {
      var x := Next01();
      r := x < probability;
    }
  }

  /** Create(): advances the shared static generator once and seeds the new
      generator with the bitwise complement of the shared seed. */
  method CreateFromShared(shared: Random) returns (r: Random)
    modifies shared
    ensures fresh(r)
    ensures shared.seed == NextSeed(old(shared.seed))
    ensures r.seed == 0xFFFF_FFFF - shared.seed
  {
    shared.Next();
    r := new Random.Create(0xFFFF_FFFF - shared.seed);
  }

  /** The seed after n steps: two generators with equal seeds draw the same
      sequence. After at least one step the seed is in [0, 2147483645], so
      every draw of Next01 lies in [0, 1). */
  function SeedAfter(seed: uint32, n: nat): (r: uint32)
    ensures n >= 1 ==> r <= Modulus - 2 && 0.0 <= Unit(r) < 1.0
  {
    if n == 0 then seed else NextSeed(SeedAfter(seed, n - 1))
  }
}
