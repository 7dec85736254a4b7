/** Planar points and squared distances, shared by the clustering code and the beam tables. */
module Geometry {

  datatype Point = Point(x: real, y: real)

  function Mul(x: real, y: real): real {
    x * y
  }

  function Sq(x: real): real {
    Mul(x, x)
  }

  /** The square of QLineF(a, b).length(). */
  function DistSq(a: Point, b: Point): real {
    Sq(a.x - b.x) + Sq(a.y - b.y)
  }

  function Dot(a: Point, b: Point): real {
    Mul(a.x, b.x) + Mul(a.y, b.y)
  }

  lemma MulPositive(x: real, y: real)
    requires x > 0.0 && y > 0.0
    ensures Mul(x, y) > 0.0
  {
  }

  lemma SqNonNegative(x: real)
    ensures Sq(x) >= 0.0
    ensures Sq(x) == 0.0 <==> x == 0.0
    ensures Sq(-x) == Sq(x)
  {
    if x > 0.0 {
      MulPositive(x, x);
    } else if x < 0.0 {
      MulPositive(-x, -x);
    }
  }

  lemma DistSqFacts(a: Point, b: Point)
    ensures DistSq(a, b) >= 0.0
    ensures DistSq(a, b) == DistSq(b, a)
    ensures DistSq(a, b) == 0.0 <==> a == b
  {
    SqNonNegative(a.x - b.x);
    SqNonNegative(a.y - b.y);
    assert b.x - a.x == -(a.x - b.x) && b.y - a.y == -(a.y - b.y);
  }

  lemma SqIncreases(x: real, y: real)
    requires 0.0 <= x < y
    ensures Sq(x) < Sq(y)
  {
    MulPositive(y - x, y + x);
    assert Sq(y) - Sq(x) == Mul(y - x, y + x);
  }

  /** On non-negative numbers squaring preserves and reflects the order. */
  lemma SqMonotone(x: real, y: real)
    requires x >= 0.0 && y >= 0.0
    ensures Sq(x) <= Sq(y) <==> x <= y
    ensures Sq(x) == Sq(y) <==> x == y
  {
    if x < y {
      SqIncreases(x, y);
    } else if y < x {
      SqIncreases(y, x);
    }
  }
}
