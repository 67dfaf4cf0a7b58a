/** The crossings of single edges in the point-in-polygon tests: each
    lemma settles one call of IntersectSegment on concrete points. */
module GeomExamples {
  import opened Wrappers
  import opened Geom

  lemma InsideEdge0()
    ensures Hit(NewRay(Vec2(0.0, 0.0), DIAGONAL), (Vec2(1.0, 1.0), Vec2(1.0, -1.0))) == 1
  {
    InsideCross0();
  }

  lemma InsideCross0()
    ensures IntersectSegment(Line(Vec2(0.0, 0.0), Vec2(1.0, 1.0), Infinite), Vec2(1.0, 1.0), Vec2(1.0, -1.0)).Some?
  {
    var d, a, b := Vec2(1.0, 1.0), Vec2(0.0, 2.0), Vec2(1.0, 1.0);
    assert Vec2(1.0, 1.0).Minus(Vec2(1.0, -1.0)) == a;
    assert Vec2(1.0, 1.0).Minus(Vec2(0.0, 0.0)) == b;
    assert Cross(d, a) == 2.0;
    assert Cross(b, a) == 2.0;
    assert Cross(d, b) == 0.0;
    assert Solve(d, a, b) == Some((1.0, 0.0));
    IntersectSegmentAt(Line(Vec2(0.0, 0.0), Vec2(1.0, 1.0), Infinite), Vec2(1.0, 1.0), Vec2(1.0, -1.0), 1.0, 0.0);
  }

  lemma InsideEdge1()
    ensures Hit(NewRay(Vec2(0.0, 0.0), DIAGONAL), (Vec2(1.0, -1.0), Vec2(-1.0, 0.0))) == 0
  {
    InsideCross1();
  }

  lemma InsideCross1()
    ensures IntersectSegment(Line(Vec2(0.0, 0.0), Vec2(1.0, 1.0), Infinite), Vec2(1.0, -1.0), Vec2(-1.0, 0.0)).None?
  {
    assert Solve(Vec2(1.0, 1.0), Vec2(2.0, -1.0), Vec2(1.0, -1.0)) == Some((-1.0 / 3.0, 2.0 / 3.0));
  }

  lemma InsideEdge2()
    ensures Hit(NewRay(Vec2(0.0, 0.0), DIAGONAL), (Vec2(-1.0, 0.0), Vec2(1.0, 1.0))) == 0
  {
    InsideCross2();
  }

  lemma InsideCross2()
    ensures IntersectSegment(Line(Vec2(0.0, 0.0), Vec2(1.0, 1.0), Infinite), Vec2(-1.0, 0.0), Vec2(1.0, 1.0)).None?
  {
    assert Solve(Vec2(1.0, 1.0), Vec2(-2.0, -1.0), Vec2(-1.0, 0.0)) == Some((1.0, 1.0));
  }

  lemma OutsideEdge0()
    ensures Hit(NewRay(Vec2(2.0, 0.0), DIAGONAL), (Vec2(1.0, 1.0), Vec2(1.0, -1.0))) == 0
  {
    assert IntersectSegment(Line(Vec2(2.0, 0.0), Vec2(1.0, 1.0), Infinite), Vec2(1.0, 1.0), Vec2(1.0, -1.0)).None? by {
      assert Solve(Vec2(1.0, 1.0), Vec2(0.0, 2.0), Vec2(-1.0, 1.0)) == Some((-1.0, 1.0));
    }
  }

  lemma OutsideEdge1()
    ensures Hit(NewRay(Vec2(2.0, 0.0), DIAGONAL), (Vec2(1.0, -1.0), Vec2(-1.0, 0.0))) == 0
  {
    assert IntersectSegment(Line(Vec2(2.0, 0.0), Vec2(1.0, 1.0), Infinite), Vec2(1.0, -1.0), Vec2(-1.0, 0.0)).None? by {
      assert Cross(Vec2(1.0, 1.0), Vec2(2.0, -1.0)) == -3.0;
      assert Solve(Vec2(1.0, 1.0), Vec2(2.0, -1.0), Vec2(-1.0, -1.0)) == Some((-1.0, 0.0));
    }
  }

  lemma OutsideEdge2()
    ensures Hit(NewRay(Vec2(2.0, 0.0), DIAGONAL), (Vec2(-1.0, 0.0), Vec2(1.0, 1.0))) == 0
  {
    assert IntersectSegment(Line(Vec2(2.0, 0.0), Vec2(1.0, 1.0), Infinite), Vec2(-1.0, 0.0), Vec2(1.0, 1.0)).None? by {
      assert Solve(Vec2(1.0, 1.0), Vec2(-2.0, -1.0), Vec2(-3.0, 0.0)) == Some((3.0, 3.0));
    }
  }
}
