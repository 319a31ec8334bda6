/** Algebra on `Axis`: unit vectors, the nearest axis of a vector, the
    reverse axis, the relation between two axes and the sign of an axis. */
module AxisKit {
  import opened Axes
  import opened Vectors

  /** The unit vector of a directed axis; `X`, `Y` and `Z` give the positive
      one, every other value the zero vector. */
  function ToVector(a: Axis): (v: Vector3)
    ensures !IsDirected(a) && a != X && a != Y && a != Z ==> v == Zero3
  {
    if a == PositiveX || a == X then Vector3(1.0, 0.0, 0.0)
    else if a == NegativeX then Vector3(-1.0, 0.0, 0.0)
    else if a == PositiveY || a == Y then Vector3(0.0, 1.0, 0.0)
    else if a == NegativeY then Vector3(0.0, -1.0, 0.0)
    else if a == PositiveZ || a == Z then Vector3(0.0, 0.0, 1.0)
    else if a == NegativeZ then Vector3(0.0, 0.0, -1.0)
    else Vector3(0.0, 0.0, 0.0)
  }

  /** The component of `v` along the line of directed axis `a`. */
  function Along(v: Vector3, a: Axis): real
    requires IsDirected(a)
  {
    if a == PositiveX || a == NegativeX then v.x
    else if a == PositiveY || a == NegativeY then v.y
    else v.z
  }

  /** The directed axis nearest to `v`: along its component of largest
      magnitude, signed like that component; ties go to the later axis. */
  function FromVector(v: Vector3): (a: Axis)
    ensures a == None <==> NearlyEqual(v, Zero3)
    ensures a != None ==> IsDirected(a)
    ensures a != None ==> Abs(Along(v, a)) >= Abs(v.x) && Abs(Along(v, a)) >= Abs(v.y) && Abs(Along(v, a)) >= Abs(v.z)
    ensures a != None ==> (IsPositive(a) <==> Along(v, a) > 0.0)
    ensures a == PositiveX || a == NegativeX ==> Abs(v.x) > Abs(v.y) && Abs(v.x) > Abs(v.z)
    ensures a == PositiveY || a == NegativeY ==> Abs(v.y) > Abs(v.z)
  {
    if NearlyEqual(v, Zero3) then None
    else
      var ax, ay, az := Abs(v.x), Abs(v.y), Abs(v.z);
      if ax > ay then
        if ax > az then (if v.x > 0.0 then PositiveX else NegativeX)
        else (if v.z > 0.0 then PositiveZ else NegativeZ)
      else
        if ay > az then (if v.y > 0.0 then PositiveY else NegativeY)
        else (if v.z > 0.0 then PositiveZ else NegativeZ)
  }

  /** The opposite directed axis; any other value is returned as it is. */
  function Reverse(a: Axis): (r: Axis)
    ensures IsDirected(a) ==> IsDirected(r) && r != a
    ensures !IsDirected(a) ==> r == a
  {
    if a == PositiveX then NegativeX
    else if a == NegativeX then PositiveX
    else if a == PositiveY then NegativeY
    else if a == NegativeY then PositiveY
    else if a == PositiveZ then NegativeZ
    else if a == NegativeZ then PositiveZ
    else a
  }

  /** `a << 3` on a 32-bit `int`, wrapping. */
  function ShiftLeft3(a: Axis): (r: Axis)
    ensures 0 <= a < 0x1000_0000 ==> r == a * 8
  {
    (a * 8 + 0x8000_0000) % 0x1_0000_0000 - 0x8000_0000
  }

  function RelationBetween(a: Axis, b: Axis): (r: AxisRelation)
    ensures IsDirected(a) && IsDirected(b) ==> (r == Same <==> a == b)
    ensures IsDirected(a) && IsDirected(b) ==> (r == Opposite <==> b == Reverse(a))
    ensures IsDirected(a) && IsDirected(b) ==> (r == Vertical <==> a != b && b != Reverse(a))
  {
    if a == b then Same
    else if ShiftLeft3(a) == b || ShiftLeft3(b) == a then Opposite
    else Vertical
  }

  predicate IsPositive(a: Axis)
    ensures IsDirected(a) ==> (IsPositive(a) <==> a == PositiveX || a == PositiveY || a == PositiveZ)
  {
    a <= 4
  }

  /** A directed axis gives a unit vector along its own line, pointing its way. */
  lemma {:induction false} ToVectorIsUnit(a: Axis)
    requires IsDirected(a)
    ensures Abs(Along(ToVector(a), a)) == 1.0
    ensures Abs(ToVector(a).x) + Abs(ToVector(a).y) + Abs(ToVector(a).z) == 1.0
    ensures IsPositive(a) <==> Along(ToVector(a), a) > 0.0
  {
  }

  /** `X`, `Y` and `Z` point like their positive axis. */
  lemma {:induction false} UndirectedPointsPositive()
    ensures ToVector(X) == ToVector(PositiveX)
    ensures ToVector(Y) == ToVector(PositiveY)
    ensures ToVector(Z) == ToVector(PositiveZ)
  {
  }

  /** The reverse of a directed axis points the opposite way. */
  lemma {:induction false} ReverseIsOpposite(a: Axis)
    requires IsDirected(a)
    ensures ToVector(Reverse(a)) == Negate(ToVector(a))
  {
    var u := ToVector(a);
    var r := ToVector(Reverse(a));
    if a == PositiveX { assert u == Vector3(1.0, 0.0, 0.0) && r == Vector3(-1.0, 0.0, 0.0); }
    else if a == NegativeX { assert u == Vector3(-1.0, 0.0, 0.0) && r == Vector3(1.0, 0.0, 0.0); }
    else if a == PositiveY { assert u == Vector3(0.0, 1.0, 0.0) && r == Vector3(0.0, -1.0, 0.0); }
    else if a == NegativeY { assert u == Vector3(0.0, -1.0, 0.0) && r == Vector3(0.0, 1.0, 0.0); }
    else if a == PositiveZ { assert u == Vector3(0.0, 0.0, 1.0) && r == Vector3(0.0, 0.0, -1.0); }
    else { assert u == Vector3(0.0, 0.0, -1.0) && r == Vector3(0.0, 0.0, 1.0); }
  }

  /** Reversing twice gives back the axis. */
  lemma {:induction false} ReverseInvolution(a: Axis)
    ensures Reverse(Reverse(a)) == a
  {
  }

  /** The vector of a directed axis leads back to that axis. */
  lemma {:induction false} FromToVector(a: Axis)
    requires IsDirected(a)
    ensures FromVector(ToVector(a)) == a
  {
    assert !NearlyEqual(ToVector(a), Zero3);
  }

  /** Reversing a directed axis flips its sign. */
  lemma {:induction false} ReverseFlipsSign(a: Axis)
    requires IsDirected(a)
    ensures IsPositive(Reverse(a)) == !IsPositive(a)
  {
  }
}
