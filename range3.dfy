/** A three-dimensional box: one `Range` per axis, each a separate value. */
module Ranges3 {
  import opened Vectors
  import opened Ranges

  class Range3 {
    const x: Range
    const y: Range
    const z: Range

    /** The three axis ranges are separate values, as struct fields are. */
    predicate Valid() {
      x != y && y != z && x != z
    }

    /** Copies the three axis ranges. */
    constructor(x0: Range, y0: Range, z0: Range)
      ensures Valid() && fresh(x) && fresh(y) && fresh(z)
      ensures x.min == x0.min && x.max == x0.max && y.min == y0.min && y.max == y0.max
      ensures z.min == z0.min && z.max == z0.max
    {
      x := new Range(x0.min, x0.max);
      y := new Range(y0.min, y0.max);
      z := new Range(z0.min, z0.max);
    }

    /** The box with corners `min` and `max`. */
    constructor FromCorners(min: Vector3, max: Vector3)
      ensures Valid() && fresh(x) && fresh(y) && fresh(z)
      ensures MinCorner() == min && MaxCorner() == max
    {
      x := new Range(min.x, max.x);
      y := new Range(min.y, max.y);
      z := new Range(min.z, max.z);
    }

    function MinCorner(): Vector3
      reads x, y, z
    {
      Vector3(x.min, y.min, z.min)
    }

    function MaxCorner(): Vector3
      reads x, y, z
    {
      Vector3(x.max, y.max, z.max)
    }

    /** The size per axis: no component negative exactly when the box is
        sorted, and the corners lie half of it either side of the center. */
    function Size(): (s: Vector3)
      reads x, y, z
      ensures (0.0 <= s.x && 0.0 <= s.y && 0.0 <= s.z) <==> Sorted()
      ensures MinCorner() == Vector3(Center().x - s.x * 0.5, Center().y - s.y * 0.5, Center().z - s.z * 0.5)
      ensures MaxCorner() == Vector3(Center().x + s.x * 0.5, Center().y + s.y * 0.5, Center().z + s.z * 0.5)
    {
      Vector3(x.Size(), y.Size(), z.Size())
    }

    /** The midpoint per axis: as far from each min as from each max, and
        inside a sorted box. */
    function Center(): (c: Vector3)
      reads x, y, z
      ensures c.x - x.min == x.max - c.x && c.y - y.min == y.max - c.y && c.z - z.min == z.max - c.z
      ensures Sorted() ==> x.Contains(c.x) && y.Contains(c.y) && z.Contains(c.z)
    {
      Vector3(x.Center(), y.Center(), z.Center())
    }

    /** The `min` setter writes the three mins and nothing else. */
    method SetMin(value: Vector3)
      requires Valid()
      modifies x, y, z
      ensures MinCorner() == value && MaxCorner() == old(MaxCorner())
    {
      x.min := value.x;
      y.min := value.y;
      z.min := value.z;
    }

    /** The `max` setter writes the three maxes and nothing else. */
    method SetMax(value: Vector3)
      requires Valid()
      modifies x, y, z
      ensures MaxCorner() == value && MinCorner() == old(MinCorner())
    {
      x.max := value.x;
      y.max := value.y;
      z.max := value.z;
    }

    /** The `size` setter keeps the center. */
    method SetSize(value: Vector3)
      requires Valid()
      modifies x, y, z
      ensures Size() == value && Center() == old(Center())
    {
      x.SetSize(value.x);
      y.SetSize(value.y);
      z.SetSize(value.z);
    }

    /** The `center` setter keeps the size. */
    method SetCenter(value: Vector3)
      requires Valid()
      modifies x, y, z
      ensures Center() == value && Size() == old(Size())
    {
      x.SetCenter(value.x);
      y.SetCenter(value.y);
      z.SetCenter(value.z);
    }

    predicate Sorted()
      reads x, y, z
    {
      x.Sorted() && y.Sorted() && z.Sorted()
    }

    method SortMinMax()
      requires Valid()
      modifies x, y, z
      ensures Sorted()
      ensures old(x.Sorted()) ==> x.min == old(x.min) && x.max == old(x.max)
      ensures !old(x.Sorted()) ==> x.min == old(x.max) && x.max == old(x.min)
      ensures old(y.Sorted()) ==> y.min == old(y.min) && y.max == old(y.max)
      ensures !old(y.Sorted()) ==> y.min == old(y.max) && y.max == old(y.min)
      ensures old(z.Sorted()) ==> z.min == old(z.min) && z.max == old(z.max)
      ensures !old(z.Sorted()) ==> z.min == old(z.max) && z.max == old(z.min)
    {
      x.SortMinMax();
      y.SortMinMax();
      z.SortMinMax();
    }

    /** The points inside on every axis; an unsorted box holds none. */
    predicate Contains(point: Vector3): (b: bool)
      reads x, y, z
      ensures b ==> Sorted()
    {
      x.Contains(point.x) && y.Contains(point.y) && z.Contains(point.z)
    }

    /** The point of the box nearest to `point`, axis by axis. */
    function Closest(point: Vector3): (r: Vector3)
      reads x, y, z
      ensures r.x == x.Closest(point.x) && r.y == y.Closest(point.y) && r.z == z.Closest(point.z)
      ensures Contains(point) ==> r == point
      ensures Sorted() ==> Contains(r)
    {
      point.(x := x.Closest(point.x), y := y.Closest(point.y), z := z.Closest(point.z))
    }

    /** Two sorted boxes overlap exactly when, on every axis, the larger min
        does not exceed the smaller max. */
    predicate Intersects(other: Range3): (b: bool)
      reads x, y, z, other.x, other.y, other.z
      ensures Sorted() && other.Sorted() ==>
        (b <==> Max(x.min, other.x.min) <= Min(x.max, other.x.max) && Max(y.min, other.y.min) <= Min(y.max, other.y.max) && Max(z.min, other.z.min) <= Min(z.max, other.z.max))
    {
      x.Intersects(other.x) && y.Intersects(other.y) && z.Intersects(other.z)
    }

    /** The overlap of the two boxes, axis by axis. */
    method GetIntersection(other: Range3) returns (r: Range3)
      requires Valid() && other.Valid()
      ensures fresh(r) && fresh(r.x) && fresh(r.y) && fresh(r.z) && r.Valid()
      ensures r.MinCorner() == Vector3(Max(x.min, other.x.min), Max(y.min, other.y.min), Max(z.min, other.z.min))
      ensures r.MaxCorner() == Vector3(Min(x.max, other.x.max), Min(y.max, other.y.max), Min(z.max, other.z.max))
      ensures forall p :: r.Contains(p) <==> Contains(p) && other.Contains(p)
    {
      var ix := x.GetIntersection(other.x);
      var iy := y.GetIntersection(other.y);
      var iz := z.GetIntersection(other.z);
      r := new Range3(ix, iy, iz);
    }

    function SignedDistance3(point: Vector3): (r: Vector3)
      reads x, y, z
      ensures r.x == x.SignedDistance(point.x) && r.y == y.SignedDistance(point.y) && r.z == z.SignedDistance(point.z)
      ensures Sorted() ==> r == Vector3(point.x - Closest(point).x, point.y - Closest(point).y, point.z - Closest(point).z)
    {
      point.(x := x.SignedDistance(point.x), y := y.SignedDistance(point.y), z := z.SignedDistance(point.z))
    }

    function Distance3(point: Vector3): (r: Vector3)
      reads x, y, z
      ensures r.x == x.Distance(point.x) && r.y == y.Distance(point.y) && r.z == z.Distance(point.z)
      ensures r == Vector3(Abs(SignedDistance3(point).x), Abs(SignedDistance3(point).y), Abs(SignedDistance3(point).z))
    {
      point.(x := x.Distance(point.x), y := y.Distance(point.y), z := z.Distance(point.z))
    }

    /** The squared length of the per-axis distance: never negative, and zero
        on the points of a sorted box. */
    function SqrDistance(point: Vector3): (r: real)
      reads x, y, z
      ensures r >= 0.0
      ensures Sorted() && Contains(point) ==> r == 0.0
    {
      var d := Distance3(point);
      if Sorted() then
        DistanceZeroIffContains(x, point.x);
        DistanceZeroIffContains(y, point.y);
        DistanceZeroIffContains(z, point.z);
        d.x * d.x + d.y * d.y + d.z * d.z
      else
        d.x * d.x + d.y * d.y + d.z * d.z
    }

    method EncapsulatePoint(point: Vector3)
      requires Valid()
      modifies x, y, z
      ensures MinCorner() == Vector3(Min(old(x.min), point.x), Min(old(y.min), point.y), Min(old(z.min), point.z))
      ensures x.max == (if point.x < old(x.min) then old(x.max) else Max(old(x.max), point.x))
      ensures y.max == (if point.y < old(y.min) then old(y.max) else Max(old(y.max), point.y))
      ensures z.max == (if point.z < old(z.min) then old(z.max) else Max(old(z.max), point.z))
      ensures old(Sorted()) ==> Contains(point)
      ensures forall p :: old(Contains(p)) ==> Contains(p)
    {
      x.EncapsulateValue(point.x);
      y.EncapsulateValue(point.y);
      z.EncapsulateValue(point.z);
    }

    method EncapsulateRange(other: Range3)
      requires Valid() && other.Valid()
      modifies x, y, z
      ensures MinCorner() == Vector3(Min(old(x.min), old(other.x.min)), Min(old(y.min), old(other.y.min)), Min(old(z.min), old(other.z.min)))
      ensures MaxCorner() == Vector3(Max(old(x.max), old(other.x.max)), Max(old(y.max), old(other.y.max)), Max(old(z.max), old(other.z.max)))
      ensures forall p :: old(Contains(p)) ==> Contains(p)
      ensures forall p :: old(other.Contains(p)) ==> Contains(p)
    {
      var copy := new Range3(other.x, other.y, other.z);
      x.EncapsulateRange(copy.x);
      y.EncapsulateRange(copy.y);
      z.EncapsulateRange(copy.z);
    }

    method Expand(delta: Vector3)
      requires Valid()
      modifies x, y, z
      ensures MinCorner() == Vector3(old(x.min) - delta.x, old(y.min) - delta.y, old(z.min) - delta.z)
      ensures MaxCorner() == Vector3(old(x.max) + delta.x, old(y.max) + delta.y, old(z.max) + delta.z)
      ensures Center() == old(Center())
    {
      x.Expand(delta.x);
      y.Expand(delta.y);
      z.Expand(delta.z);
    }

    method ExpandEvenly(delta: real)
      requires Valid()
      modifies x, y, z
      ensures MinCorner() == Vector3(old(x.min) - delta, old(y.min) - delta, old(z.min) - delta)
      ensures MaxCorner() == Vector3(old(x.max) + delta, old(y.max) + delta, old(z.max) + delta)
      ensures Center() == old(Center())
    {
      x.Expand(delta);
      y.Expand(delta);
      z.Expand(delta);
    }

    method Move(delta: Vector3)
      requires Valid()
      modifies x, y, z
      ensures MinCorner() == Vector3(old(x.min) + delta.x, old(y.min) + delta.y, old(z.min) + delta.z)
      ensures MaxCorner() == Vector3(old(x.max) + delta.x, old(y.max) + delta.y, old(z.max) + delta.z)
      ensures Size() == old(Size())
      ensures forall p: Vector3 :: Contains(Vector3(p.x + delta.x, p.y + delta.y, p.z + delta.z)) <==> old(Contains(p))
    {
      x.Move(delta.x);
      y.Move(delta.y);
      z.Move(delta.z);
    }
  }

  /** Two sorted boxes intersect exactly when some point lies in both. */
  lemma {:induction false} IntersectsIffShared3(a: Range3, b: Range3)
    requires a.Sorted() && b.Sorted()
    ensures a.Intersects(b) <==> exists p :: a.Contains(p) && b.Contains(p)
  {
    IntersectsIffShared(a.x, b.x);
    IntersectsIffShared(a.y, b.y);
    IntersectsIffShared(a.z, b.z);
    if a.Intersects(b) {
      var vx :| a.x.Contains(vx) && b.x.Contains(vx);
      var vy :| a.y.Contains(vy) && b.y.Contains(vy);
      var vz :| a.z.Contains(vz) && b.z.Contains(vz);
      assert a.Contains(Vector3(vx, vy, vz)) && b.Contains(Vector3(vx, vy, vz));
    }
    if exists p :: a.Contains(p) && b.Contains(p) {
      var p :| a.Contains(p) && b.Contains(p);
      assert a.x.Contains(p.x) && b.x.Contains(p.x);
      assert a.y.Contains(p.y) && b.y.Contains(p.y);
      assert a.z.Contains(p.z) && b.z.Contains(p.z);
    }
  }

  /** A box holds exactly the points at most half its size from its center
      on every axis. */
  lemma {:induction false} ContainsNearCenter3(a: Range3, p: Vector3)
    ensures a.Contains(p) <==>
      Abs(p.x - a.Center().x) <= a.Size().x * 0.5 && Abs(p.y - a.Center().y) <= a.Size().y * 0.5
      && Abs(p.z - a.Center().z) <= a.Size().z * 0.5
  {
    ContainsNearCenter(a.x, p.x);
    ContainsNearCenter(a.y, p.y);
    ContainsNearCenter(a.z, p.z);
  }
}
