/** `test_point_in_polygon`: the even-odd count for the test triangle,
    assembled from the single-edge crossings. */
module PolygonExamples {
  import opened Utils
  import opened Geom
  import opened GeomExamples

  /** The triangle of `test_point_in_polygon`. */
  const TRIANGLE: seq<Vec2> := [Vec2(1.0, 1.0), Vec2(1.0, -1.0), Vec2(-1.0, 0.0)]

  lemma TriangleEdges()
    ensures Successors(TRIANGLE) == [(TRIANGLE[0], TRIANGLE[1]), (TRIANGLE[1], TRIANGLE[2]), (TRIANGLE[2], TRIANGLE[0])]
  {
  }

  /** `test_point_in_polygon`: the origin is inside the triangle. */
  lemma PointInPolygonExampleInside(pt: Vec2, poly: seq<Vec2>)
    requires pt == Vec2(0.0, 0.0) && poly == TRIANGLE
    ensures PointInPolygon(pt, poly)
  {
    TriangleEdges();
    InsideCount(NewRay(pt, DIAGONAL), (poly[0], poly[1]), (poly[1], poly[2]), (poly[2], poly[0]));
  }

  /** The ray from the origin hits the first edge at its start (u = 0), the
      second one behind the origin (t = -1/3) and the third one at its end
      (u = 1), which the half-open range excludes: the shared vertex (1, 1)
      is counted once. */
  lemma InsideCount(ray: Line, e0: (Vec2, Vec2), e1: (Vec2, Vec2), e2: (Vec2, Vec2))
    requires ray == NewRay(Vec2(0.0, 0.0), DIAGONAL)
    requires e0 == (Vec2(1.0, 1.0), Vec2(1.0, -1.0))
    requires e1 == (Vec2(1.0, -1.0), Vec2(-1.0, 0.0))
    requires e2 == (Vec2(-1.0, 0.0), Vec2(1.0, 1.0))
    ensures CountHits(ray, [e0, e1, e2]) == 1
  {
    InsideEdge0();
    InsideEdge1();
    InsideEdge2();
    CountHitsThree(ray, e0, e1, e2);
  }

  /** `test_point_in_polygon`: (2, 0) is outside the triangle. */
  lemma PointInPolygonExampleOutside(pt: Vec2, poly: seq<Vec2>)
    requires pt == Vec2(2.0, 0.0) && poly == TRIANGLE
    ensures !PointInPolygon(pt, poly)
  {
    TriangleEdges();
    OutsideCount(NewRay(pt, DIAGONAL), (poly[0], poly[1]), (poly[1], poly[2]), (poly[2], poly[0]));
  }

  /** From (2, 0) the first two edges lie behind the ray (t = -1) and the
      third is met on the line through it beyond its end (u = 3). */
  lemma OutsideCount(ray: Line, e0: (Vec2, Vec2), e1: (Vec2, Vec2), e2: (Vec2, Vec2))
    requires ray == NewRay(Vec2(2.0, 0.0), DIAGONAL)
    requires e0 == (Vec2(1.0, 1.0), Vec2(1.0, -1.0))
    requires e1 == (Vec2(1.0, -1.0), Vec2(-1.0, 0.0))
    requires e2 == (Vec2(-1.0, 0.0), Vec2(1.0, 1.0))
    ensures CountHits(ray, [e0, e1, e2]) == 0
  {
    OutsideEdge0();
    OutsideEdge1();
    OutsideEdge2();
    CountHitsThree(ray, e0, e1, e2);
  }
}
