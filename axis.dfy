/** The `Axis` flags enumeration: six directed axes as single bits, the
    negative axis three bits above its positive one, and their unions. */
module Axes {
  import opened Powers

  /** An `Axis` value is any 32-bit integer; the named members are flags. */
  type Axis = a: int | -0x8000_0000 <= a < 0x8000_0000

  const None: Axis := 0
  const PositiveX: Axis := 1
  const PositiveY: Axis := 2
  const PositiveZ: Axis := 4
  const NegativeX: Axis := 8
  const NegativeY: Axis := 16
  const NegativeZ: Axis := 32
  const X: Axis := 9
  const Y: Axis := 18
  const Z: Axis := 36
  const XY: Axis := 27
  const YZ: Axis := 54
  const XZ: Axis := 45
  const All: Axis := 63

  datatype AxisRelation = Same | Vertical | Opposite

  /** The six directed axes. */
  predicate IsDirected(a: Axis) {
    a == PositiveX || a == PositiveY || a == PositiveZ ||
    a == NegativeX || a == NegativeY || a == NegativeZ
  }

  function Or(a: Axis, b: Axis): Axis
    requires 0 <= a < 256 && 0 <= b < 256
  {
    (a as bv8 | b as bv8) as int
  }

  /** Each directed axis is a single bit, and they are six distinct bits. */
  lemma {:induction false} DirectedAreSingleBits(a: Axis)
    requires IsDirected(a)
    ensures exists k :: 0 <= k < 6 && a == Pow2(k)
  {
    if a == PositiveX { assert a == Pow2(0); }
    else if a == PositiveY { assert a == Pow2(1); }
    else if a == PositiveZ { assert a == Pow2(2); }
    else if a == NegativeX { assert a == Pow2(3); }
    else if a == NegativeY { assert a == Pow2(4); }
    else { assert a == Pow2(5); }
  }

  /** A negative axis is its positive axis shifted left by three bits. */
  lemma {:induction false} NegativeIsShiftedPositive()
    ensures NegativeX == PositiveX * 8 && NegativeY == PositiveY * 8 && NegativeZ == PositiveZ * 8
  {
  }

  /** The undirected axes, planes and `All` are unions of directed axes. */
  lemma {:induction false} UnionsOfDirected()
    ensures X == Or(PositiveX, NegativeX) && Y == Or(PositiveY, NegativeY) && Z == Or(PositiveZ, NegativeZ)
    ensures XY == Or(X, Y) && YZ == Or(Y, Z) && XZ == Or(X, Z)
    ensures All == Or(Or(X, Y), Z) && None == 0
  {
  }
}
