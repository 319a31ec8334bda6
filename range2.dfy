/** A two-dimensional box: one `Range` per axis, each a separate value. */
module Ranges2 {
  import opened Vectors
  import opened Ranges

  class Range2 {
    const x: Range
    const y: Range

    /** The two axis ranges are separate values, as struct fields are. */
    predicate Valid() {
      x != y
    }

    /** Copies the two axis ranges. */
    constructor(x0: Range, y0: Range)
      ensures Valid() && fresh(x) && fresh(y)
      ensures x.min == x0.min && x.max == x0.max && y.min == y0.min && y.max == y0.max
    {
      x := new Range(x0.min, x0.max);
      y := new Range(y0.min, y0.max);
    }

    /** The box with corners `min` and `max`. */
    constructor FromCorners(min: Vector2, max: Vector2)
      ensures Valid() && fresh(x) && fresh(y)
      ensures MinCorner() == min && MaxCorner() == max
    {
      x := new Range(min.x, max.x);
      y := new Range(min.y, max.y);
    }

    function MinCorner(): Vector2
      reads x, y
    {
      Vector2(x.min, y.min)
    }

    function MaxCorner(): Vector2
      reads x, y
    {
      Vector2(x.max, y.max)
    }

    /** The size per axis: no component negative exactly when the box is
        sorted, and the corners lie half of it either side of the center. */
    function Size(): (s: Vector2)
      reads x, y
      ensures (0.0 <= s.x && 0.0 <= s.y) <==> Sorted()
      ensures MinCorner() == Vector2(Center().x - s.x * 0.5, Center().y - s.y * 0.5)
      ensures MaxCorner() == Vector2(Center().x + s.x * 0.5, Center().y + s.y * 0.5)
    {
      Vector2(x.Size(), y.Size())
    }

    /** The midpoint per axis: as far from each min as from each max, and
        inside a sorted box. */
    function Center(): (c: Vector2)
      reads x, y
      ensures c.x - x.min == x.max - c.x && c.y - y.min == y.max - c.y
      ensures Sorted() ==> x.Contains(c.x) && y.Contains(c.y)
    {
      Vector2(x.Center(), y.Center())
    }

    /** The `min` setter writes the two mins and nothing else. */
    method SetMin(value: Vector2)
      requires Valid()
      modifies x, y
      ensures MinCorner() == value && MaxCorner() == old(MaxCorner())
    {
      x.min := value.x;
      y.min := value.y;
    }

    /** The `max` setter writes the two maxes and nothing else. */
    method SetMax(value: Vector2)
      requires Valid()
      modifies x, y
      ensures MaxCorner() == value && MinCorner() == old(MinCorner())
    {
      x.max := value.x;
      y.max := value.y;
    }

    /** The `size` setter keeps the center. */
    method SetSize(value: Vector2)
      requires Valid()
      modifies x, y
      ensures Size() == value && Center() == old(Center())
    {
      x.SetSize(value.x);
      y.SetSize(value.y);
    }

    /** The `center` setter keeps the size. */
    method SetCenter(value: Vector2)
      requires Valid()
      modifies x, y
      ensures Center() == value && Size() == old(Size())
    {
      x.SetCenter(value.x);
      y.SetCenter(value.y);
    }

    predicate Sorted()
      reads x, y
    {
      x.Sorted() && y.Sorted()
    }

    method SortMinMax()
      requires Valid()
      modifies x, y
      ensures Sorted()
      ensures old(x.Sorted()) ==> x.min == old(x.min) && x.max == old(x.max)
      ensures !old(x.Sorted()) ==> x.min == old(x.max) && x.max == old(x.min)
      ensures old(y.Sorted()) ==> y.min == old(y.min) && y.max == old(y.max)
      ensures !old(y.Sorted()) ==> y.min == old(y.max) && y.max == old(y.min)
    {
      x.SortMinMax();
      y.SortMinMax();
    }

    /** The points inside on every axis; an unsorted box holds none. */
    predicate Contains(point: Vector2): (b: bool)
      reads x, y
      ensures b ==> Sorted()
    {
      x.Contains(point.x) && y.Contains(point.y)
    }

    /** The point of the box nearest to `point`, axis by axis. */
    function Closest(point: Vector2): (r: Vector2)
      reads x, y
      ensures r.x == x.Closest(point.x) && r.y == y.Closest(point.y)
      ensures Contains(point) ==> r == point
      ensures Sorted() ==> Contains(r)
    {
      point.(x := x.Closest(point.x), y := y.Closest(point.y))
    }

    /** Two sorted boxes overlap exactly when, on every axis, the larger min
        does not exceed the smaller max. */
    predicate Intersects(other: Range2): (b: bool)
      reads x, y, other.x, other.y
      ensures Sorted() && other.Sorted() ==>
        (b <==> Max(x.min, other.x.min) <= Min(x.max, other.x.max) && Max(y.min, other.y.min) <= Min(y.max, other.y.max))
    {
      x.Intersects(other.x) && y.Intersects(other.y)
    }

    /** The overlap of the two boxes, axis by axis. */
    method GetIntersection(other: Range2) returns (r: Range2)
      requires Valid() && other.Valid()
      ensures fresh(r) && fresh(r.x) && fresh(r.y) && r.Valid()
      ensures r.MinCorner() == Vector2(Max(x.min, other.x.min), Max(y.min, other.y.min))
      ensures r.MaxCorner() == Vector2(Min(x.max, other.x.max), Min(y.max, other.y.max))
      ensures forall p :: r.Contains(p) <==> Contains(p) && other.Contains(p)
    {
      var ix := x.GetIntersection(other.x);
      var iy := y.GetIntersection(other.y);
      r := new Range2(ix, iy);
    }

    function SignedDistance2(point: Vector2): (r: Vector2)
      reads x, y
      ensures r.x == x.SignedDistance(point.x) && r.y == y.SignedDistance(point.y)
      ensures Sorted() ==> r == Vector2(point.x - Closest(point).x, point.y - Closest(point).y)
    {
      point.(x := x.SignedDistance(point.x), y := y.SignedDistance(point.y))
    }

    function Distance2(point: Vector2): (r: Vector2)
      reads x, y
      ensures r.x == x.Distance(point.x) && r.y == y.Distance(point.y)
      ensures r == Vector2(Abs(SignedDistance2(point).x), Abs(SignedDistance2(point).y))
    {
      point.(x := x.Distance(point.x), y := y.Distance(point.y))
    }

    /** The squared length of the per-axis distance: never negative, and zero
        on the points of a sorted box. */
    function SqrDistance(point: Vector2): (r: real)
      reads x, y
      ensures r >= 0.0
      ensures Sorted() && Contains(point) ==> r == 0.0
    {
      var d := Distance2(point);
      if Sorted() then
        DistanceZeroIffContains(x, point.x);
        DistanceZeroIffContains(y, point.y);
        d.x * d.x + d.y * d.y
      else
        d.x * d.x + d.y * d.y
    }

    method EncapsulatePoint(point: Vector2)
      requires Valid()
      modifies x, y
      ensures x.min == Min(old(x.min), point.x) && y.min == Min(old(y.min), point.y)
      ensures x.max == (if point.x < old(x.min) then old(x.max) else Max(old(x.max), point.x))
      ensures y.max == (if point.y < old(y.min) then old(y.max) else Max(old(y.max), point.y))
      ensures old(Sorted()) ==> Contains(point)
      ensures forall p :: old(Contains(p)) ==> Contains(p)
    {
      x.EncapsulateValue(point.x);
      y.EncapsulateValue(point.y);
    }

    method EncapsulateRange(other: Range2)
      requires Valid() && other.Valid()
      modifies x, y
      ensures MinCorner() == Vector2(Min(old(x.min), old(other.x.min)), Min(old(y.min), old(other.y.min)))
      ensures MaxCorner() == Vector2(Max(old(x.max), old(other.x.max)), Max(old(y.max), old(other.y.max)))
      ensures forall p :: old(Contains(p)) ==> Contains(p)
      ensures forall p :: old(other.Contains(p)) ==> Contains(p)
    {
      var copy := new Range2(other.x, other.y);
      x.EncapsulateRange(copy.x);
      y.EncapsulateRange(copy.y);
    }

    method Expand(delta: Vector2)
      requires Valid()
      modifies x, y
      ensures MinCorner() == Vector2(old(x.min) - delta.x, old(y.min) - delta.y)
      ensures MaxCorner() == Vector2(old(x.max) + delta.x, old(y.max) + delta.y)
      ensures Center() == old(Center())
    {
      x.Expand(delta.x);
      y.Expand(delta.y);
    }

    method ExpandEvenly(delta: real)
      requires Valid()
      modifies x, y
      ensures MinCorner() == Vector2(old(x.min) - delta, old(y.min) - delta)
      ensures MaxCorner() == Vector2(old(x.max) + delta, old(y.max) + delta)
      ensures Center() == old(Center())
    {
      x.Expand(delta);
      y.Expand(delta);
    }

    method Move(delta: Vector2)
      requires Valid()
      modifies x, y
      ensures MinCorner() == Vector2(old(x.min) + delta.x, old(y.min) + delta.y)
      ensures MaxCorner() == Vector2(old(x.max) + delta.x, old(y.max) + delta.y)
      ensures Size() == old(Size())
      ensures forall p: Vector2 :: Contains(Vector2(p.x + delta.x, p.y + delta.y)) <==> old(Contains(p))
    {
      x.Move(delta.x);
      y.Move(delta.y);
    }
  }

  /** Two sorted boxes intersect exactly when some point lies in both. */
  lemma {:induction false} IntersectsIffShared2(a: Range2, b: Range2)
    requires a.Sorted() && b.Sorted()
    ensures a.Intersects(b) <==> exists p :: a.Contains(p) && b.Contains(p)
  {
    IntersectsIffShared(a.x, b.x);
    IntersectsIffShared(a.y, b.y);
    if a.Intersects(b) {
      var vx :| a.x.Contains(vx) && b.x.Contains(vx);
      var vy :| a.y.Contains(vy) && b.y.Contains(vy);
      assert a.Contains(Vector2(vx, vy)) && b.Contains(Vector2(vx, vy));
    }
    if exists p :: a.Contains(p) && b.Contains(p) {
      var p :| a.Contains(p) && b.Contains(p);
      assert a.x.Contains(p.x) && b.x.Contains(p.x);
      assert a.y.Contains(p.y) && b.y.Contains(p.y);
    }
  }

  /** A box holds exactly the points at most half its size from its center
      on every axis. */
  lemma {:induction false} ContainsNearCenter2(a: Range2, p: Vector2)
    ensures a.Contains(p) <==>
      Abs(p.x - a.Center().x) <= a.Size().x * 0.5 && Abs(p.y - a.Center().y) <= a.Size().y * 0.5
  {
    ContainsNearCenter(a.x, p.x);
    ContainsNearCenter(a.y, p.y);
  }
}
