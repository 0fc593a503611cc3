/** Exact plane geometry for the cap triangulator: 2D points after the cut
    polygon has been projected onto the cutting plane, the oriented-area
    `Sign`, the barycentric `PointInTriangle` test and the corner cross
    product the ear clipper uses. Coordinates are exact reals here. */
module Planar {

  datatype Vec2 = Vec2(x: real, y: real)

  /** Twice the oriented area of the triangle (p1, p2, p3): positive when
      the three points turn counter-clockwise. */
  function Sign(p1: Vec2, p2: Vec2, p3: Vec2): real {
    (p1.x - p3.x) * (p2.y - p3.y) - (p2.x - p3.x) * (p1.y - p3.y)
  }

  /** `pt` lies in the closed triangle (v1, v2, v3), whichever its winding:
      the three edge signs are never of both strict signs. */
  predicate PointInTriangle(pt: Vec2, v1: Vec2, v2: Vec2, v3: Vec2) {
    var d1 := Sign(pt, v1, v2);
    var d2 := Sign(pt, v2, v3);
    var d3 := Sign(pt, v3, v1);
    var hasNeg := d1 < 0.0 || d2 < 0.0 || d3 < 0.0;
    var hasPos := d1 > 0.0 || d2 > 0.0 || d3 > 0.0;
    !(hasNeg && hasPos)
  }

  /** The z component of `(prev - index) x (next - index)`: the turn the
      polygon makes at `index`. */
  function CrossZ(index: Vec2, prev: Vec2, next: Vec2): real {
    var a := Vec2(prev.x - index.x, prev.y - index.y);
    var b := Vec2(next.x - index.x, next.y - index.y);
    a.x * b.y - a.y * b.x
  }

  /** The corner cross product is the oriented area of (prev, next, index). */
  lemma CrossZIsSign(index: Vec2, prev: Vec2, next: Vec2)
    ensures CrossZ(index, prev, next) == Sign(prev, next, index)
  {
  }

  /** The oriented area is unchanged by rotating the triangle and negated by
      swapping two of its corners. */
  lemma SignSymmetry(p1: Vec2, p2: Vec2, p3: Vec2)
    ensures Sign(p1, p2, p3) == Sign(p2, p3, p1)
    ensures Sign(p2, p1, p3) == -Sign(p1, p2, p3)
    ensures Sign(p1, p3, p2) == -Sign(p1, p2, p3)
  {
  }

  /** The containment test does not depend on the triangle's winding. */
  lemma PointInTriangleWinding(pt: Vec2, v1: Vec2, v2: Vec2, v3: Vec2)
    ensures PointInTriangle(pt, v1, v2, v3) == PointInTriangle(pt, v1, v3, v2)
    ensures PointInTriangle(pt, v1, v2, v3) == PointInTriangle(pt, v2, v3, v1)
  {
    SignSymmetry(pt, v1, v2);
    SignSymmetry(pt, v2, v3);
    SignSymmetry(pt, v3, v1);
  }

  /** Every corner counts as inside its own triangle, so a polygon node that
      repeats the position of an ear's corner blocks that ear. */
  lemma CornersInside(v1: Vec2, v2: Vec2, v3: Vec2)
    ensures PointInTriangle(v1, v1, v2, v3)
    ensures PointInTriangle(v2, v1, v2, v3)
    ensures PointInTriangle(v3, v1, v2, v3)
  {
  }

  /** The two orientation tests the ear clipper relies on, as values, so
      that the triangulator can be stated over any evaluation of them. */
  datatype Geometry = Geometry(
    cross: (Vec2, Vec2, Vec2) -> real,
    inside: (Vec2, Vec2, Vec2, Vec2) -> bool)

  /** The tests as computed here: the corner cross product and the
      containment test above. */
  const Exact: Geometry := Geometry(CrossZ, PointInTriangle)
}
