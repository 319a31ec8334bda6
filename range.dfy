/** A one-dimensional interval [min, max] over `real`, mutated in place. */
module Ranges {
  import opened Vectors

  function Min(a: real, b: real): real { if a <= b then a else b }
  function Max(a: real, b: real): real { if a >= b then a else b }

  class Range {
    var min: real
    var max: real

    constructor(min: real, max: real)
      ensures this.min == min && this.max == max
    {
      this.min := min;
      this.max := max;
    }

    /** min does not exceed max. */
    predicate Sorted()
      reads this
    {
      min <= max
    }

    /** The length of the range: negative exactly when the ends are out of
        order, and the ends lie half of it either side of the center. */
    function Size(): (s: real)
      reads this
      ensures s >= 0.0 <==> Sorted()
      ensures min == Center() - s * 0.5 && max == Center() + s * 0.5
    {
      max - min
    }

    /** The midpoint: as far from min as from max, and between them when
        they are in order. */
    function Center(): (c: real)
      reads this
      ensures c - min == max - c
      ensures Sorted() ==> min <= c <= max
    {
      (min + max) * 0.5
    }

    /** The `size` setter keeps the center. */
    method SetSize(value: real)
      modifies this
      ensures Size() == value && Center() == old(Center())
    {
      var center2 := min + max;
      min := (center2 - value) * 0.5;
      max := (center2 + value) * 0.5;
    }

    /** The `center` setter keeps the size. */
    method SetCenter(value: real)
      modifies this
      ensures Center() == value && Size() == old(Size())
    {
      var half := (max - min) * 0.5;
      min := value - half;
      max := value + half;
    }

    /** Swaps the ends when they are out of order. */
    method SortMinMax()
      modifies this
      ensures Sorted()
      ensures old(min) <= old(max) ==> min == old(min) && max == old(max)
      ensures old(min) > old(max) ==> min == old(max) && max == old(min)
    {
      if min > max {
        var tmp := max;
        max := min;
        min := tmp;
      }
    }

    /** The values between the ends; an unsorted range holds none. */
    predicate Contains(value: real): (b: bool)
      reads this
      ensures b ==> Sorted()
    {
      value >= min && value <= max
    }

    /** The value of the range nearest to `value`. */
    function Closest(value: real): (r: real)
      reads this
      ensures Contains(value) ==> r == value
      ensures Sorted() ==> Contains(r)
      ensures Sorted() ==> forall w :: Contains(w) ==> Abs(r - value) <= Abs(w - value)
    {
      if value <= min then min
      else if value >= max then max
      else value
    }

    /** Two sorted ranges overlap exactly when the larger min does not
        exceed the smaller max. */
    predicate Intersects(other: Range): (b: bool)
      reads this, other
      ensures Sorted() && other.Sorted() ==> (b <==> Max(min, other.min) <= Min(max, other.max))
    {
      min <= other.max && max >= other.min
    }

    /** The overlap of the two ranges: the larger min and the smaller max. */
    method GetIntersection(other: Range) returns (r: Range)
      ensures fresh(r)
      ensures r.min == Max(min, other.min) && r.max == Min(max, other.max)
      ensures forall v :: r.Contains(v) <==> Contains(v) && other.Contains(v)
    {
      r := new Range(other.min, other.max);
      if min > r.min { r.min := min; }
      if max < r.max { r.max := max; }
    }

    /** Negative below the range, positive above it, zero inside. */
    function SignedDistance(value: real): (r: real)
      reads this
      ensures r < 0.0 <==> value < min
      ensures Sorted() ==> r == value - Closest(value)
    {
      if value < min then value - min
      else if value > max then value - max
      else 0.0
    }

    function Distance(value: real): (r: real)
      reads this
      ensures r == Abs(SignedDistance(value))
    {
      if value < min then min - value
      else if value > max then value - max
      else 0.0
    }

    /** Grows the range just enough to hold `value`. */
    method EncapsulateValue(value: real)
      modifies this
      ensures value < old(min) ==> min == value && max == old(max)
      ensures value >= old(min) ==> min == old(min) && max == (if value > old(max) then value else old(max))
      ensures old(Sorted()) ==> Sorted() && Contains(value)
      ensures forall w :: old(Contains(w)) ==> Contains(w)
    {
      if value < min {
        min := value;
      } else if value > max {
        max := value;
      }
    }

    /** Grows the range just enough to cover `other`. */
    method EncapsulateRange(other: Range)
      modifies this
      ensures min == Min(old(min), old(other.min)) && max == Max(old(max), old(other.max))
      ensures forall w :: old(Contains(w)) ==> Contains(w)
      ensures forall w :: old(other.Contains(w)) ==> Contains(w)
    {
      if other.min < min { min := other.min; }
      if other.max > max { max := other.max; }
    }

    /** Moves both ends outwards by `delta`; a negative delta shrinks. */
    method Expand(delta: real)
      modifies this
      ensures min == old(min) - delta && max == old(max) + delta
      ensures Center() == old(Center()) && Size() == old(Size()) + 2.0 * delta
    {
      min := min - delta;
      max := max + delta;
    }

    /** Shifts both ends by `delta`. */
    method Move(delta: real)
      modifies this
      ensures min == old(min) + delta && max == old(max) + delta
      ensures Size() == old(Size())
      ensures forall v :: Contains(v + delta) <==> old(Contains(v))
    {
      min := min + delta;
      max := max + delta;
    }
  }

  /** Two sorted ranges intersect exactly when some value lies in both. */
  lemma {:induction false} IntersectsIffShared(a: Range, b: Range)
    requires a.Sorted() && b.Sorted()
    ensures a.Intersects(b) <==> exists v :: a.Contains(v) && b.Contains(v)
  {
    if a.Intersects(b) {
      var v := Max(a.min, b.min);
      assert a.Contains(v) && b.Contains(v);
    }
  }

  /** A sorted range is at distance zero from its own values and no other. */
  lemma DistanceZeroIffContains(a: Range, v: real)
    requires a.Sorted()
    ensures a.Distance(v) == 0.0 <==> a.Contains(v)
  {
  }

  /** A range holds exactly the values at most half its size from its center. */
  lemma ContainsNearCenter(a: Range, v: real)
    ensures a.Contains(v) <==> Abs(v - a.Center()) <= a.Size() * 0.5
  {
  }
}
