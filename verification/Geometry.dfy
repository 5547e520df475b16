/** Points and rectangles over exact coordinates, and the order in which one rectangle contains another. */
module Geometry {

  datatype Point = Point(x: real, y: real) {
    function Max(other: Point): Point {
      Point(if x > other.x then x else other.x, if y > other.y then y else other.y)
    }

    function Min(other: Point): Point {
      Point(if x <= other.x then x else other.x, if y <= other.y then y else other.y)
    }
  }

  datatype Size = Size(width: real, height: real)

  // Sizes may be zero or negative: nothing in the source forbids it.
  datatype Bounds = Bounds(origin: Point, size: Size) {
    static function FromCorners(topLeft: Point, bottomRight: Point): (b: Bounds)
      ensures b.origin == topLeft && b.BottomRight() == bottomRight
    {
      Bounds(topLeft, Size(bottomRight.x - topLeft.x, bottomRight.y - topLeft.y))
    }

    function BottomRight(): Point {
      Point(origin.x + size.width, origin.y + size.height)
    }

    predicate Intersects(other: Bounds) {
      var mine := BottomRight();
      var theirs := other.BottomRight();
      && origin.x < theirs.x
      && mine.x > other.origin.x
      && origin.y < theirs.y
      && mine.y > other.origin.y
    }

    function Union(other: Bounds): Bounds {
      var topLeft := origin.Min(other.origin);
      var bottomRight := BottomRight().Max(other.BottomRight());
      FromCorners(topLeft, bottomRight)
    }

    function HalfPerimeter(): real {
      size.width + size.height
    }

    /** Corner-wise containment. */
    predicate Contains(other: Bounds) {
      && origin.x <= other.origin.x
      && origin.y <= other.origin.y
      && other.BottomRight().x <= BottomRight().x
      && other.BottomRight().y <= BottomRight().y
    }
  }

  /** The union is the least rectangle that contains both. */
  lemma UnionIsLeast(a: Bounds, b: Bounds, c: Bounds)
    ensures c.Contains(a.Union(b)) <==> c.Contains(a) && c.Contains(b)
  {
  }

  lemma UnionIsLeastAll(a: Bounds, b: Bounds)
    ensures forall c: Bounds :: c.Contains(a.Union(b)) <==> c.Contains(a) && c.Contains(b)
  {
  }

  /** Adding the same rectangle twice, as a leaf's parent does on an insertion, is adding it once. */
  lemma UnionAbsorbs(a: Bounds, b: Bounds)
    ensures a.Union(b).Union(b) == a.Union(b)
    ensures a.Union(b) == b.Union(a)
  {
  }

  /** What makes spatial pruning sound: a rectangle that meets `inner` meets everything that contains it. */
  lemma IntersectsGrows(q: Bounds, inner: Bounds, outer: Bounds)
    requires outer.Contains(inner) && q.Intersects(inner)
    ensures q.Intersects(outer)
  {
  }

  lemma IntersectsSymmetric(a: Bounds, b: Bounds)
    ensures a.Intersects(b) == b.Intersects(a)
  {
  }

  // ---------- What the operations mean for the points of a rectangle ----------

  predicate Positive(b: Bounds) {
    b.size.width > 0.0 && b.size.height > 0.0
  }

  predicate Inside(p: Point, b: Bounds) {
    && b.origin.x < p.x < b.BottomRight().x
    && b.origin.y < p.y < b.BottomRight().y
  }

  /** Two rectangles meet exactly when some point is inside both. */
  lemma MeetIsSharedPoint(a: Bounds, b: Bounds)
    requires Positive(a) && Positive(b)
    ensures a.Intersects(b) <==> exists p: Point :: Inside(p, a) && Inside(p, b)
  {
    if a.Intersects(b) {
      var topLeft := a.origin.Max(b.origin);
      var bottomRight := a.BottomRight().Min(b.BottomRight());
      var p := Point((topLeft.x + bottomRight.x) / 2.0, (topLeft.y + bottomRight.y) / 2.0);
      assert Inside(p, a) && Inside(p, b);
    }
  }

  /** A rectangle without extent meets another one exactly when its point is inside. */
  lemma PointMeets(p: Point, b: Bounds)
    ensures Bounds(p, Size(0.0, 0.0)).Intersects(b) <==> Inside(p, b)
  {
    assert Bounds(p, Size(0.0, 0.0)).BottomRight() == p;
  }

  /** Containment is containment of points. */
  lemma ContainsIsOfPoints(a: Bounds, b: Bounds)
    requires Positive(b)
    ensures a.Contains(b) <==> forall p: Point :: Inside(p, b) ==> Inside(p, a)
  {
    if !a.Contains(b) {
      var p := PointOutside(a, b);
    }
  }

  lemma PointOutside(a: Bounds, b: Bounds) returns (p: Point)
    requires Positive(b) && !a.Contains(b)
    ensures Inside(p, b) && !Inside(p, a)
  {
    var end, aEnd := b.BottomRight(), a.BottomRight();
    var mid := Point((b.origin.x + end.x) / 2.0, (b.origin.y + end.y) / 2.0);
    p := mid;
    if a.origin.x > b.origin.x {
      p := p.(x := if a.origin.x < end.x then (b.origin.x + a.origin.x) / 2.0 else mid.x);
    } else if a.origin.y > b.origin.y {
      p := p.(y := if a.origin.y < end.y then (b.origin.y + a.origin.y) / 2.0 else mid.y);
    } else if end.x > aEnd.x {
      p := p.(x := if aEnd.x > b.origin.x then (aEnd.x + end.x) / 2.0 else mid.x);
    } else {
      p := p.(y := if aEnd.y > b.origin.y then (aEnd.y + end.y) / 2.0 else mid.y);
    }
  }

  /** The half perimeter grows with the rectangle, strictly unless that stays the same. */
  lemma HalfPerimeterGrows(a: Bounds, b: Bounds)
    requires a.Contains(b)
    ensures a.HalfPerimeter() >= b.HalfPerimeter()
    ensures a.HalfPerimeter() == b.HalfPerimeter() <==> a == b
  {
    assert a.size.width == a.BottomRight().x - a.origin.x && b.size.width == b.BottomRight().x - b.origin.x;
  }

  /** It is the way along the sides from one corner to the opposite one, by any point inside. */
  lemma HalfPerimeterIs(b: Bounds)
    requires Positive(b)
    ensures forall p: Point :: Inside(p, b) ==>
              (p.x - b.origin.x) + (p.y - b.origin.y) + (b.BottomRight().x - p.x) + (b.BottomRight().y - p.y)
              == b.HalfPerimeter()
  {
  }
}
