/** The 2D geometry kernel: vectors, lines (segments and rays), axis-aligned
    boxes, box halving, box adjacency, ray/segment intersection by Cramer's
    rule and the even-odd point-in-polygon test. Coordinates are reals. */
module Geom {
  import opened Wrappers
  import opened Utils

  datatype Axis = X | Y

  datatype Vec2 = Vec2(x: real, y: real) {
    /** `v[0]` / `v[1]`. */
    function At(a: Axis): real {
      match a
      case X => x
      case Y => y
    }

    /** This vector with the component on `a` replaced by `v`. */
    function With(a: Axis, v: real): Vec2 {
      match a
      case X => this.(x := v)
      case Y => this.(y := v)
    }

    function Plus(o: Vec2): Vec2 { Vec2(x + o.x, y + o.y) }

    function Minus(o: Vec2): Vec2 { Vec2(x - o.x, y - o.y) }

    function Scale(k: real): Vec2 { Vec2(k * x, k * y) }

    function Neg(): Vec2 { Vec2(-x, -y) }
  }

  /** The determinant of the matrix whose columns are `a` and `b`. */
  function Cross(a: Vec2, b: Vec2): real {
    a.x * b.y - b.x * a.y
  }

  // ---------------------------------------------------------------- lines

  /** A segment has a finite length, a ray an infinite one. */
  datatype Length = Finite(value: real) | Infinite

  /** `t < length`, which always holds against an infinite length. */
  predicate Below(t: real, len: Length) {
    match len
    case Finite(l) => t < l
    case Infinite => true
  }

  datatype Line = Line(start: Vec2, direction: Vec2, length: Length)

  /** `Line::new_ray`: an unbounded line from `start`. The direction is kept
      as given: scaling it does not change which edges the ray hits. */
  function NewRay(start: Vec2, direction: Vec2): Line {
    Line(start, direction, Infinite)
  }

  /** `Line::new_segment`. The source stores the unit direction and the
      Euclidean length; here the direction is `end - start` and the length 1,
      which admits exactly the same points `start + t * direction`; `End`,
      which needs the Euclidean length, is given it separately. */
  function NewSegment(start: Vec2, end: Vec2): Line {
    Line(start, end.Minus(start), Finite(1.0))
  }

  /** The clamp applied to the length of a line when drawing its end. */
  const MAX_LENGTH: real := 10000000000.0

  /** The squared Euclidean length of `v`. */
  function SqNorm(v: Vec2): real { v.x * v.x + v.y * v.y }

  /** `n` is the Euclidean length of the non-zero vector `v`. Square roots
      are not modelled: the norm that `normalize` divides by is passed
      alongside the vector. */
  predicate IsNorm(v: Vec2, n: real) {
    n > 0.0 && n * n == SqNorm(v)
  }

  /** The length of a line in the units of the plane: a segment's length 1
      in direction units is the norm of its direction. */
  function RealLength(l: Line, norm: real): (r: real)
    requires norm > 0.0
    ensures l.length.Infinite? ==> r == MAX_LENGTH
  {
    match l.length
    case Finite(v) => v * norm
    case Infinite => MAX_LENGTH
  }

  /** `Line::end`: the start advanced by `min(length, 1E10)` along the unit
      direction, which is the stored direction divided by its norm. */
  function End(l: Line, norm: real): (r: Vec2)
    requires IsNorm(l.direction, norm)
    ensures RealLength(l, norm) <= MAX_LENGTH ==>
              r == l.start.Plus(l.direction.Scale(RealLength(l, norm) / norm))
    ensures RealLength(l, norm) >= MAX_LENGTH ==>
              r == l.start.Plus(l.direction.Scale(MAX_LENGTH / norm))
  {
    var len := RealLength(l, norm);
    var clamped := if len <= MAX_LENGTH then len else MAX_LENGTH;
    l.start.Plus(l.direction.Scale(clamped / norm))
  }

  /** Scaling a vector scales its squared length by the square. */
  lemma SqNormScale(v: Vec2, k: real)
    ensures SqNorm(v.Scale(k)) == k * k * SqNorm(v)
  {
    assert (k * v.x) * (k * v.x) == k * k * (v.x * v.x);
    assert (k * v.y) * (k * v.y) == k * k * (v.y * v.y);
  }

  /** Moving `c / n` directions of norm `n` covers a distance of `c`. */
  lemma ScaledDistance(v: Vec2, n: real, c: real)
    requires IsNorm(v, n)
    ensures SqNorm(v.Scale(c / n)) == c * c
  {
    var q := c / n;
    SqNormScale(v, q);
    assert q * n == c;
    assert q * q * (n * n) == (q * n) * (q * n);
  }

  /** A segment no longer than 1E10 ends where it was asked to end. */
  lemma EndOfSegment(a: Vec2, b: Vec2, norm: real)
    requires IsNorm(b.Minus(a), norm) && norm <= MAX_LENGTH
    ensures End(NewSegment(a, b), norm) == b
  {
    assert RealLength(NewSegment(a, b), norm) == norm;
    assert norm / norm == 1.0;
  }

  /** A longer segment is cut short: its end lies on the way to `b`, 1E10
      from `a`. */
  lemma EndOfLongSegment(a: Vec2, b: Vec2, norm: real)
    requires IsNorm(b.Minus(a), norm) && norm > MAX_LENGTH
    ensures End(NewSegment(a, b), norm) == a.Plus(b.Minus(a).Scale(MAX_LENGTH / norm))
    ensures SqNorm(End(NewSegment(a, b), norm).Minus(a)) == MAX_LENGTH * MAX_LENGTH
    ensures End(NewSegment(a, b), norm) != b
  {
    var e := End(NewSegment(a, b), norm);
    assert RealLength(NewSegment(a, b), norm) == norm;
    assert e.Minus(a) == b.Minus(a).Scale(MAX_LENGTH / norm);
    ScaledDistance(b.Minus(a), norm, MAX_LENGTH);
  }

  /** A ray ends 1E10 from its start along its direction, whatever the
      length of the direction it was built with. */
  lemma EndOfRay(p: Vec2, d: Vec2, norm: real)
    requires IsNorm(d, norm)
    ensures End(NewRay(p, d), norm) == p.Plus(d.Scale(MAX_LENGTH / norm))
    ensures SqNorm(End(NewRay(p, d), norm).Minus(p)) == MAX_LENGTH * MAX_LENGTH
  {
    var e := End(NewRay(p, d), norm);
    assert e.Minus(p) == d.Scale(MAX_LENGTH / norm);
    ScaledDistance(d, norm, MAX_LENGTH);
  }

  // ---------------------------------------------------------------- boxes

  /** An axis-aligned box: the half-open region `[start, start + dim)`. */
  datatype AABox = AABox(start: Vec2, dim: Vec2)

  function NewSquare(start: Vec2, dim: real): AABox {
    AABox(start, Vec2(dim, dim))
  }

  /** `corners`: counter-clockwise from `start`. */
  function Corners(b: AABox): (r: seq<Vec2>)
    ensures |r| == 4 && r[0] == b.start && r[2] == b.start.Plus(b.dim)
    ensures r[1] == b.start.Plus(Vec2(b.dim.x, 0.0)) && r[3] == b.start.Plus(Vec2(0.0, b.dim.y))
  {
    [b.start,
     b.start.Plus(Vec2(b.dim.x, 0.0)),
     b.start.Plus(b.dim),
     b.start.Plus(Vec2(0.0, b.dim.y))]
  }

  /** The corners go round the box: each edge between consecutive corners,
      the closing one included, runs along one axis, and for a box of
      positive extent every turn is to the left, so the order is
      counter-clockwise. */
  lemma CornersCounterClockwise(b: AABox, i: nat)
    requires i < 4
    ensures var r := Corners(b); var p := r[i]; var q := r[(i + 1) % 4];
            p.x == q.x || p.y == q.y
    ensures var r := Corners(b);
            b.dim.x > 0.0 && b.dim.y > 0.0 ==>
              Cross(r[(i + 1) % 4].Minus(r[i]), r[(i + 2) % 4].Minus(r[(i + 1) % 4])) > 0.0
  {
    var r := Corners(b);
    var w, h := b.dim.x, b.dim.y;
    if i == 0 {
      assert r[1].Minus(r[0]) == Vec2(w, 0.0) && r[2].Minus(r[1]) == Vec2(0.0, h);
    } else if i == 1 {
      assert r[2].Minus(r[1]) == Vec2(0.0, h) && r[3].Minus(r[2]) == Vec2(-w, 0.0);
    } else if i == 2 {
      assert r[3].Minus(r[2]) == Vec2(-w, 0.0) && r[0].Minus(r[3]) == Vec2(0.0, -h);
    } else {
      assert r[0].Minus(r[3]) == Vec2(0.0, -h) && r[1].Minus(r[0]) == Vec2(w, 0.0);
    }
    if w > 0.0 && h > 0.0 {
      assert w * h > 0.0;
    }
  }

  /** `point_in_aabox`: inside on both axes, start inclusive, end exclusive. */
  predicate PointInAABox(p: Vec2, b: AABox) {
    var end := b.start.Plus(b.dim);
    p.x >= b.start.x && p.x < end.x && p.y >= b.start.y && p.y < end.y
  }

  /** The start corner of a non-empty box is inside it, the far corner and
      every point on the far edges is not. */
  lemma PointInAABoxHalfOpen(b: AABox, p: Vec2)
    ensures b.dim.x > 0.0 && b.dim.y > 0.0 ==> PointInAABox(b.start, b)
    ensures !PointInAABox(b.start.Plus(b.dim), b)
    ensures p.x == b.start.x + b.dim.x || p.y == b.start.y + b.dim.y ==> !PointInAABox(p, b)
  {
  }

  /** `center`: the midpoint of the start corner and the far corner, which
      lies inside every box of positive extent. */
  function Center(b: AABox): (r: Vec2)
    ensures r.Plus(r) == b.start.Plus(b.start.Plus(b.dim))
    ensures b.dim.x > 0.0 && b.dim.y > 0.0 ==> PointInAABox(r, b)
  {
    b.start.Plus(b.dim.Scale(0.5))
  }

  /** The axis `split_mut` halves: the longer one, `x` on ties. */
  function SplitAxis(b: AABox): Axis {
    if b.dim.x >= b.dim.y then X else Y
  }

  /** `split_mut` as a value: the original shrunk in place (first) and the
      new box occupying the vacated half (second). */
  function Split(b: AABox): (r: (AABox, AABox))
    // the shrunk original keeps its start and its other dimension
    ensures r.0.start == b.start
    ensures b.dim.x >= b.dim.y ==> r.0.dim == Vec2(b.dim.x / 2.0, b.dim.y)
    ensures b.dim.x < b.dim.y ==> r.0.dim == Vec2(b.dim.x, b.dim.y / 2.0)
    // the new box has the same extent and starts where the shrunk one ends
    ensures r.1.dim == r.0.dim
    ensures b.dim.x >= b.dim.y ==> r.1.start == Vec2(b.start.x + r.0.dim.x, b.start.y)
    ensures b.dim.x < b.dim.y ==> r.1.start == Vec2(b.start.x, b.start.y + r.0.dim.y)
  {
    var a := SplitAxis(b);
    var shrunk := AABox(b.start, b.dim.With(a, b.dim.At(a) * 0.5));
    var vacated := AABox(b.start.With(a, b.start.At(a) + shrunk.dim.At(a)), shrunk.dim);
    (shrunk, vacated)
  }

  /** Splitting partitions the box: a point is in it exactly when it is in
      one, and only one, of the two halves. */
  lemma SplitPartition(b: AABox, p: Vec2)
    ensures PointInAABox(p, b) <==> (PointInAABox(p, Split(b).0) || PointInAABox(p, Split(b).1))
    ensures !(PointInAABox(p, Split(b).0) && PointInAABox(p, Split(b).1))
  {
  }

  /** Splitting keeps the area: each half has half of it. */
  lemma SplitHalvesArea(b: AABox)
    ensures Split(b).0.dim.x * Split(b).0.dim.y == b.dim.x * b.dim.y / 2.0
    ensures Split(b).1.dim.x * Split(b).1.dim.y == b.dim.x * b.dim.y / 2.0
  {
  }

  /** A box whose extent `split_mut` shrinks in place. */
  class MutAABox {
    var start: Vec2
    var dim: Vec2

    function Value(): AABox
      reads this
    {
      AABox(start, dim)
    }

    constructor (b: AABox)
      ensures Value() == b
    {
      start := b.start;
      dim := b.dim;
    }

    /** Halves the longer dimension of this box and returns the new box
        that covers the vacated half. */
    method SplitMut() returns (new_: AABox)
      modifies this
      ensures Value() == Split(old(Value())).0
      ensures new_ == Split(old(Value())).1
    {
      new_ := Value();
      var index := if dim.x >= dim.y then X else Y;
      dim := dim.With(index, dim.At(index) * 0.5);
      new_ := new_.(dim := new_.dim.With(index, new_.dim.At(index) * 0.5));
      new_ := new_.(start := new_.start.With(index, new_.start.At(index) + dim.At(index)));
    }
  }

  // ------------------------------------------------------------- adjacency

  /** The tolerance of the adjacency test. */
  const TOL: real := 0.001

  predicate Eq(lhs: real, rhs: real) { Abs(lhs - rhs) < TOL }

  predicate Lt(lhs: real, rhs: real) { lhs - rhs < -TOL }

  predicate Gt(lhs: real, rhs: real) { lhs - rhs > TOL }

  /** Whether two ranges coincide or strictly overlap, within the tolerance. */
  predicate RangeUnion(lhs: (real, real), rhs: (real, real)) {
    || (Eq(lhs.0, rhs.0) && Eq(lhs.1, rhs.1))
    || ((Lt(lhs.0, rhs.0) || Eq(lhs.0, rhs.0)) && Gt(lhs.1, rhs.0))
    || ((Lt(rhs.0, lhs.0) || Eq(rhs.0, lhs.0)) && Gt(rhs.1, lhs.0))
  }

  /** `aabox_are_adjacent`: the ranges touch on one axis and overlap on the
      other. */
  predicate Adjacent(lhs: AABox, rhs: AABox) {
    var lc := Corners(lhs);
    var rc := Corners(rhs);
    var lx := MinMax(lc[0].x, lc[2].x);
    var rx := MinMax(rc[0].x, rc[2].x);
    var ly := MinMax(lc[0].y, lc[2].y);
    var ry := MinMax(rc[0].y, rc[2].y);
    || ((Eq(lx.0, rx.1) || Eq(lx.1, rx.0)) && RangeUnion(ly, ry))
    || ((Eq(ly.0, ry.1) || Eq(ly.1, ry.0)) && RangeUnion(lx, rx))
  }

  lemma RangeUnionSymmetric(a: (real, real), b: (real, real))
    ensures RangeUnion(a, b) <==> RangeUnion(b, a)
  {
  }

  /** Adjacency does not depend on the order of its arguments. */
  lemma AdjacentSymmetric(lhs: AABox, rhs: AABox)
    ensures Adjacent(lhs, rhs) <==> Adjacent(rhs, lhs)
  {
    var lc := Corners(lhs);
    var rc := Corners(rhs);
    RangeUnionSymmetric(MinMax(lc[0].x, lc[2].x), MinMax(rc[0].x, rc[2].x));
    RangeUnionSymmetric(MinMax(lc[0].y, lc[2].y), MinMax(rc[0].y, rc[2].y));
  }

  /** Two boxes side by side, sharing the vertical line `x = a + w` along a
      stretch longer than the tolerance, are adjacent. */
  lemma SharedEdgeAdjacent(a: real, b: real, w: real, h: real, b': real, w': real, h': real)
    requires w >= 0.0 && h >= 0.0 && w' >= 0.0 && h' >= 0.0
    requires b + h - b' > TOL && b' + h' - b > TOL
    requires Abs(b - b') != TOL
    ensures Adjacent(AABox(Vec2(a, b), Vec2(w, h)), AABox(Vec2(a + w, b'), Vec2(w', h')))
  {
    var ly := MinMax(b, b + h);
    var ry := MinMax(b', b' + h');
    assert ly == (b, b + h) && ry == (b', b' + h');
    if b <= b' {
      assert Lt(b, b') || Eq(b, b');
    } else {
      assert Lt(b', b) || Eq(b', b);
    }
    assert RangeUnion(ly, ry);
    assert Eq(a + w, a + w);
  }

  /** Boxes that meet only at a corner are not adjacent: the overlap test on
      the other axis is strict. */
  lemma CornerOnlyNotAdjacent(a: real, b: real, w: real, h: real, w': real, h': real)
    requires w >= TOL && h >= TOL && w' >= 0.0 && h' >= 0.0
    ensures !Adjacent(AABox(Vec2(a, b), Vec2(w, h)), AABox(Vec2(a + w, b + h), Vec2(w', h')))
  {
    var lx := MinMax(a, a + w);
    var rx := MinMax(a + w, a + w + w');
    var ly := MinMax(b, b + h);
    var ry := MinMax(b + h, b + h + h');
    assert lx == (a, a + w) && rx == (a + w, a + w + w');
    assert ly == (b, b + h) && ry == (b + h, b + h + h');
    assert !RangeUnion(ly, ry);
    assert !RangeUnion(lx, rx);
  }

  /** `test_aabox_adjacent`: squares sharing the edge `x = 1` are adjacent. */
  lemma AdjacentExampleSharedEdge()
    ensures Adjacent(NewSquare(Vec2(0.0, 0.0), 1.0), NewSquare(Vec2(1.0, 0.0), 1.0))
  {
    assert Eq(1.0, 1.0) && Eq(0.0, 0.0);
    assert RangeUnion((0.0, 1.0), (0.0, 1.0));
    assert MinMax(0.0, 1.0) == (0.0, 1.0) && MinMax(1.0, 2.0) == (1.0, 2.0);
  }

  /** `test_aabox_adjacent` (an `assert_false!`): a 0.1 gap is not adjacent. */
  lemma AdjacentExampleGap()
    ensures !Adjacent(NewSquare(Vec2(0.0, 0.0), 1.0), NewSquare(Vec2(1.1, 0.0), 1.0))
  {
    assert MinMax(1.1, 2.1) == (1.1, 2.1);
    assert !Eq(0.0, 2.1) && !Eq(1.0, 1.1) && !Eq(0.0, 1.0) && !Eq(1.0, 0.0);
  }

  /** `test_aabox_adjacent`: a small square on the top edge is adjacent. */
  lemma AdjacentExampleTopEdge()
    ensures Adjacent(NewSquare(Vec2(0.0, 0.0), 1.0), NewSquare(Vec2(0.0, 1.0), 0.1))
  {
    assert MinMax(1.0, 1.1) == (1.0, 1.1);
    assert MinMax(0.0, 0.1) == (0.0, 0.1);
    assert Eq(1.0, 1.0) && Eq(0.0, 0.0) && Gt(1.0, 0.0);
  }

  /** `test_aabox_adjacent` (an `assert_fakse!`): an interior square is not. */
  lemma AdjacentExampleInterior()
    ensures !Adjacent(NewSquare(Vec2(0.0, 0.0), 1.0), NewSquare(Vec2(0.5, 0.5), 0.1))
  {
    assert MinMax(0.5, 0.6) == (0.5, 0.6);
    assert !Eq(0.0, 0.6) && !Eq(1.0, 0.5);
  }

  /** `test_aabox_adjacent`: an offset square below is adjacent. */
  lemma AdjacentExampleBelow()
    ensures Adjacent(NewSquare(Vec2(0.0, 0.0), 1.0), NewSquare(Vec2(0.1, -1.0), 1.0))
  {
    assert MinMax(0.0, 1.0) == (0.0, 1.0);
    assert MinMax(0.1, 1.1) == (0.1, 1.1);
    assert MinMax(-1.0, 0.0) == (-1.0, 0.0);
    assert Eq(0.0, 0.0) && Lt(0.0, 0.1) && Gt(1.0, 0.1);
    assert RangeUnion((0.0, 1.0), (0.1, 1.1));
  }

  // ---------------------------------------------------------- intersection

  /** The solution `(t, u)` of `t * d + u * a == b` by Cramer's rule, or
      None when the matrix with columns `d` and `a` is singular. */
  function Solve(d: Vec2, a: Vec2, b: Vec2): Option<(real, real)> {
    var det := Cross(d, a);
    if det == 0.0 then None
    else Some((Cross(b, a) / det, Cross(d, b) / det))
  }

  /** Multiplying the system through by the determinant. */
  lemma CramerIdentities(d: Vec2, a: Vec2, b: Vec2, t: real, u: real)
    ensures (t * d.x + u * a.x) * Cross(d, a) == t * Cross(d, a) * d.x + u * Cross(d, a) * a.x
    ensures (t * d.y + u * a.y) * Cross(d, a) == t * Cross(d, a) * d.y + u * Cross(d, a) * a.y
    ensures Cross(b, a) * d.x + Cross(d, b) * a.x == b.x * Cross(d, a)
    ensures Cross(b, a) * d.y + Cross(d, b) * a.y == b.y * Cross(d, a)
    ensures t * d.x + u * a.x == b.x && t * d.y + u * a.y == b.y ==>
              Cross(b, a) == t * Cross(d, a) && Cross(d, b) == u * Cross(d, a)
  {
  }

  /** Solve finds exactly the solutions of the system. */
  lemma SolveCorrect(d: Vec2, a: Vec2, b: Vec2, t: real, u: real)
    ensures Solve(d, a, b) == Some((t, u)) <==>
              Cross(d, a) != 0.0 && d.Scale(t).Plus(a.Scale(u)) == b
  {
    var det := Cross(d, a);
    CramerIdentities(d, a, b, t, u);
    if det != 0.0 {
      if Solve(d, a, b) == Some((t, u)) {
        assert t * det == Cross(b, a);
        assert u * det == Cross(d, b);
        assert (t * d.x + u * a.x) * det == b.x * det;
        assert (t * d.y + u * a.y) * det == b.y * det;
        DivideOut(t * d.x + u * a.x, b.x, det);
        DivideOut(t * d.y + u * a.y, b.y, det);
      }
      if d.Scale(t).Plus(a.Scale(u)) == b {
        assert t * d.x + u * a.x == b.x;
        assert t * d.y + u * a.y == b.y;
        assert Cross(b, a) / det == t;
        assert Cross(d, b) / det == u;
      }
    }
  }

  lemma DivideOut(p: real, q: real, k: real)
    requires k != 0.0 && p * k == q * k
    ensures p == q
  {
    assert (p - q) * k == 0.0;
  }

  /** The ray or segment `l` meets the edge from `s` to `e` at parameter `t`
      along `l` and parameter `u` along the edge, both in range. */
  ghost predicate MeetsAt(l: Line, s: Vec2, e: Vec2, t: real, u: real) {
    && 0.0 <= t && Below(t, l.length) && 0.0 <= u < 1.0
    && l.start.Plus(l.direction.Scale(t)) == s.Plus(e.Minus(s).Scale(u))
  }

  /** `intersect_segment`: the point where `l` crosses the edge `s`-`e`,
      with `0 <= t < length` and `0 <= u < 1`. */
  function IntersectSegment(l: Line, s: Vec2, e: Vec2): (r: Option<Vec2>)
    ensures Cross(l.direction, s.Minus(e)) == 0.0 ==> r == None
  {
    match Solve(l.direction, s.Minus(e), s.Minus(l.start))
    case None => None
    case Some(tu) =>
      if tu.0 >= 0.0 && Below(tu.0, l.length) && tu.1 >= 0.0 && tu.1 < 1.0
      then Some(l.start.Plus(l.direction.Scale(tu.0)))
      else None
  }

  /** The solved parameters in range give the crossing point. */
  lemma IntersectSegmentAt(l: Line, s: Vec2, e: Vec2, t: real, u: real)
    requires Solve(l.direction, s.Minus(e), s.Minus(l.start)) == Some((t, u))
    requires 0.0 <= t && Below(t, l.length) && 0.0 <= u < 1.0
    ensures IntersectSegment(l, s, e) == Some(l.start.Plus(l.direction.Scale(t)))
  {
  }

  lemma MeetsAtEquation(l: Line, s: Vec2, e: Vec2, t: real, u: real)
    ensures l.start.Plus(l.direction.Scale(t)) == s.Plus(e.Minus(s).Scale(u)) <==>
              l.direction.Scale(t).Plus(s.Minus(e).Scale(u)) == s.Minus(l.start)
  {
  }

  /** A reported intersection lies on both the line and the edge. */
  lemma IntersectSegmentSound(l: Line, s: Vec2, e: Vec2)
    requires IntersectSegment(l, s, e).Some?
    ensures exists t, u :: MeetsAt(l, s, e, t, u) &&
              IntersectSegment(l, s, e).value == l.start.Plus(l.direction.Scale(t))
  {
    var tu := Solve(l.direction, s.Minus(e), s.Minus(l.start)).value;
    SolveCorrect(l.direction, s.Minus(e), s.Minus(l.start), tu.0, tu.1);
    MeetsAtEquation(l, s, e, tu.0, tu.1);
    assert MeetsAt(l, s, e, tu.0, tu.1);
  }

  /** Unless the line and the edge are parallel, every in-range meeting point
      is reported. */
  lemma IntersectSegmentComplete(l: Line, s: Vec2, e: Vec2, t: real, u: real)
    requires Cross(l.direction, s.Minus(e)) != 0.0
    requires MeetsAt(l, s, e, t, u)
    ensures IntersectSegment(l, s, e) == Some(l.start.Plus(l.direction.Scale(t)))
  {
    MeetsAtEquation(l, s, e, t, u);
    SolveCorrect(l.direction, s.Minus(e), s.Minus(l.start), t, u);
  }

  /** `test_intersect`, parallel: a ray along the x axis misses the
      horizontal edge above it. */
  lemma IntersectSegmentExampleParallel()
    ensures IntersectSegment(NewRay(Vec2(0.0, 0.0), Vec2(1.0, 0.0)), Vec2(0.0, 1.0), Vec2(1.0, 1.0)) == None
  {
    var l := NewRay(Vec2(0.0, 0.0), Vec2(1.0, 0.0));
    assert l.direction == Vec2(1.0, 0.0);
    assert Vec2(0.0, 1.0).Minus(Vec2(1.0, 1.0)) == Vec2(-1.0, 0.0);
    HorizontalMisses(l, Vec2(0.0, 1.0), Vec2(1.0, 1.0));
  }

  /** A horizontal line never crosses a horizontal edge: the two are
      parallel. */
  lemma HorizontalMisses(l: Line, s: Vec2, e: Vec2)
    requires l.direction.y == 0.0 && s.y == e.y
    ensures IntersectSegment(l, s, e) == None
  {
    assert s.Minus(e).y == 0.0;
    assert Cross(l.direction, s.Minus(e)) == l.direction.x * 0.0 - s.Minus(e).x * 0.0;
  }

  /** `test_intersect`, simple: the ray crosses the vertical edge at (1, 0). */
  lemma IntersectSegmentExampleCrossing()
    ensures IntersectSegment(NewRay(Vec2(0.0, 0.0), Vec2(1.0, 0.0)), Vec2(1.0, 1.0), Vec2(1.0, -2.0))
              == Some(Vec2(1.0, 0.0))
  {
    CrossingVertical(1.0, 1.0, -2.0);
  }

  /** A positive number divided by a larger one lies strictly between 0
      and 1. */
  lemma QuotientBelowOne(p: real, h: real)
    requires 0.0 < p < h
    ensures 0.0 < p / h < 1.0
  {
    assert p / h < h / h;
    assert h / h == 1.0;
  }

  /** The ray along the positive x axis crosses a vertical edge ahead of it
      that spans the axis where the edge meets the axis. */
  lemma CrossingVertical(x: real, y0: real, y1: real)
    requires x >= 0.0 && y1 < 0.0 < y0
    ensures IntersectSegment(Line(Vec2(0.0, 0.0), Vec2(1.0, 0.0), Infinite), Vec2(x, y0), Vec2(x, y1))
              == Some(Vec2(x, 0.0))
  {
    var l := Line(Vec2(0.0, 0.0), Vec2(1.0, 0.0), Infinite);
    var s, e := Vec2(x, y0), Vec2(x, y1);
    var h := y0 - y1;
    var u := y0 / h;
    assert s.Minus(e) == Vec2(0.0, h) && s.Minus(l.start) == Vec2(x, y0);
    assert Cross(l.direction, Vec2(0.0, h)) == h;
    assert u * h == y0;
    QuotientBelowOne(y0, h);
    assert l.direction.Scale(x).Plus(Vec2(0.0, h).Scale(u)) == Vec2(x, y0);
    SolveCorrect(l.direction, Vec2(0.0, h), Vec2(x, y0), x, u);
    IntersectSegmentAt(l, s, e, x, u);
    assert l.start.Plus(l.direction.Scale(x)) == Vec2(x, 0.0);
  }

  /** `test_intersect`, too short: a segment of length 0.1 stops before the
      edge at x = 1. */
  lemma IntersectSegmentExampleTooShort()
    ensures IntersectSegment(Line(Vec2(0.0, 0.0), Vec2(1.0, 0.0), Finite(0.1)), Vec2(1.0, 1.0), Vec2(1.0, -10.0))
              == None
  {
    var d, a, b := Vec2(1.0, 0.0), Vec2(0.0, 11.0), Vec2(1.0, 1.0);
    assert Cross(d, a) == 11.0;
    assert Solve(d, a, b) == Some((1.0, 1.0 / 11.0));
  }

  /** The ray `a` meets the ray from `start` along `direction`. */
  ghost predicate RaysMeetAt(a: Line, start: Vec2, direction: Vec2, t: real, u: real) {
    && 0.0 <= t && Below(t, a.length) && 0.0 <= u
    && a.start.Plus(a.direction.Scale(t)) == start.Plus(direction.Scale(u))
  }

  /** `intersect_ray`: like IntersectSegment against an unbounded second ray. */
  function IntersectRay(a: Line, start: Vec2, direction: Vec2): (r: Option<Vec2>)
    ensures Cross(a.direction, direction.Neg()) == 0.0 ==> r == None
  {
    match Solve(a.direction, direction.Neg(), start.Minus(a.start))
    case None => None
    case Some(tu) =>
      if tu.0 >= 0.0 && Below(tu.0, a.length) && tu.1 >= 0.0
      then Some(a.start.Plus(a.direction.Scale(tu.0)))
      else None
  }

  /** IntersectRay reports a meeting point exactly when, the rays not being
      parallel, one exists. */
  lemma IntersectRayCorrect(a: Line, start: Vec2, direction: Vec2, t: real, u: real)
    ensures Cross(a.direction, direction.Neg()) != 0.0 && RaysMeetAt(a, start, direction, t, u) ==>
              IntersectRay(a, start, direction) == Some(a.start.Plus(a.direction.Scale(t)))
    ensures IntersectRay(a, start, direction).Some? ==>
              exists t', u' :: RaysMeetAt(a, start, direction, t', u') &&
                IntersectRay(a, start, direction).value == a.start.Plus(a.direction.Scale(t'))
  {
    var d, m, b := a.direction, direction.Neg(), start.Minus(a.start);
    SolveCorrect(d, m, b, t, u);
    assert a.start.Plus(d.Scale(t)) == start.Plus(direction.Scale(u)) <==> d.Scale(t).Plus(m.Scale(u)) == b;
    if IntersectRay(a, start, direction).Some? {
      var tu := Solve(d, m, b).value;
      SolveCorrect(d, m, b, tu.0, tu.1);
      assert a.start.Plus(d.Scale(tu.0)) == start.Plus(direction.Scale(tu.1)) <==>
               d.Scale(tu.0).Plus(m.Scale(tu.1)) == b;
      assert RaysMeetAt(a, start, direction, tu.0, tu.1);
    }
  }

  // ------------------------------------------------------------- polygons

  /** The number of edges that `l` crosses (`filter(..).count()`). */
  function CountHits(l: Line, edges: seq<(Vec2, Vec2)>): (n: nat)
    ensures n <= |edges|
  {
    if edges == [] then 0
    else (if IntersectSegment(l, edges[0].0, edges[0].1).Some? then 1 else 0) + CountHits(l, edges[1..])
  }

  /** 1 when `l` crosses `edge`, else 0. */
  function Hit(l: Line, edge: (Vec2, Vec2)): nat {
    if IntersectSegment(l, edge.0, edge.1).Some? then 1 else 0
  }

  lemma {:induction false} CountHitsAppend(l: Line, a: seq<(Vec2, Vec2)>, b: seq<(Vec2, Vec2)>)
    ensures CountHits(l, a + b) == CountHits(l, a) + CountHits(l, b)
  {
    if a == [] {
      assert a + b == b;
    } else {
      assert (a + b)[0] == a[0];
      assert (a + b)[1..] == a[1..] + b;
      CountHitsAppend(l, a[1..], b);
    }
  }

  /** The crossing count of a three-edge ring, edge by edge. */
  lemma CountHitsThree(l: Line, a: (Vec2, Vec2), b: (Vec2, Vec2), c: (Vec2, Vec2))
    ensures CountHits(l, [a, b, c]) == Hit(l, a) + Hit(l, b) + Hit(l, c)
  {
    assert [a, b, c][1..] == [b, c];
    assert [b, c][1..] == [c];
    assert [c][1..] == [];
    assert CountHits(l, [c]) == Hit(l, c);
  }

  /** The direction of the ray cast by the point-in-polygon test. */
  const DIAGONAL: Vec2 := Vec2(1.0, 1.0)

  /** `point_in_polygon`: the even-odd rule along the fixed diagonal ray,
      over every edge of the ring including the closing one. */
  predicate PointInPolygon(pt: Vec2, poly: seq<Vec2>) {
    CountHits(NewRay(pt, DIAGONAL), Successors(poly)) % 2 == 1
  }

  /** Rotating the edge list of a ring rotates its successor pairing. */
  lemma SuccessorsRotate(poly: seq<Vec2>, k: nat)
    requires k <= |poly|
    ensures Successors(RingIter(poly, k)) == RingIter(Successors(poly), k)
  {
    var n := |poly|;
    var lhs := Successors(RingIter(poly, k));
    var rhs := RingIter(Successors(poly), k);
    forall i | 0 <= i < n
      ensures lhs[i] == rhs[i]
    {
      SuccessorsAt(RingIter(poly, k), i);
      RingIterAt(poly, k, i);
      RingIterAt(poly, k, (i + 1) % n);
      RingIterAt(Successors(poly), k, i);
      SuccessorsAt(poly, (i + k) % n);
      ModSuccessor(i, k, n);
    }
  }

  /** `x % n` for `x` below `2 * n`. */
  lemma ModBelowTwice(x: nat, n: nat)
    requires 0 < n && x < 2 * n
    ensures x % n == if x < n then x else x - n
  {
    if x >= n {
      assert x == 1 * n + (x - n);
    }
  }

  lemma ModSuccessor(i: nat, k: nat, n: nat)
    requires i < n && k <= n
    ensures ((i + 1) % n + k) % n == ((i + k) % n + 1) % n
  {
    ModBelowTwice(i + 1, n);
    ModBelowTwice(i + k, n);
    ModBelowTwice((i + 1) % n + k, n);
    ModBelowTwice((i + k) % n + 1, n);
  }

  /** The test does not depend on which vertex the ring starts at. */
  lemma PointInPolygonRotation(pt: Vec2, poly: seq<Vec2>, k: nat)
    requires k <= |poly|
    ensures PointInPolygon(pt, RingIter(poly, k)) <==> PointInPolygon(pt, poly)
  {
    var e := Successors(poly);
    SuccessorsRotate(poly, k);
    CountHitsAppend(NewRay(pt, DIAGONAL), e[k..], e[..k]);
    CountHitsAppend(NewRay(pt, DIAGONAL), e[..k], e[k..]);
    assert e[..k] + e[k..] == e;
  }

  /** Whether `l` crosses some edge (`any`). */
  predicate AnyHit(l: Line, edges: seq<(Vec2, Vec2)>)
  {
    edges != [] && (IntersectSegment(l, edges[0].0, edges[0].1).Some? || AnyHit(l, edges[1..]))
  }

  lemma {:induction false} AnyHitIsCount(l: Line, edges: seq<(Vec2, Vec2)>)
    ensures AnyHit(l, edges) <==> CountHits(l, edges) > 0
    ensures AnyHit(l, edges) <==>
              exists i :: 0 <= i < |edges| && IntersectSegment(l, edges[i].0, edges[i].1).Some?
  {
    if edges != [] {
      AnyHitIsCount(l, edges[1..]);
      if IntersectSegment(l, edges[0].0, edges[0].1).None? &&
         exists i :: 0 <= i < |edges| && IntersectSegment(l, edges[i].0, edges[i].1).Some? {
        var i :| 0 <= i < |edges| && IntersectSegment(l, edges[i].0, edges[i].1).Some?;
        assert edges[1..][i - 1] == edges[i];
      }
    }
  }

  /** `intersect_polygon`: whether `line` crosses any edge of the ring. */
  predicate IntersectPolygon(line: Line, poly: seq<Vec2>) {
    AnyHit(line, Successors(poly))
  }

  /** `line` crosses the edge from `poly[i]` to its cyclic successor. */
  predicate CrossesEdge(line: Line, poly: seq<Vec2>, i: nat)
    requires i < |poly|
  {
    IntersectSegment(line, poly[i], poly[(i + 1) % |poly|]).Some?
  }

  /** IntersectPolygon holds exactly when some edge `poly[i]`-`poly[i+1]`
      (cyclically) is crossed, that is when the crossing count is non-zero. */
  lemma IntersectPolygonCorrect(line: Line, poly: seq<Vec2>)
    ensures IntersectPolygon(line, poly) <==> CountHits(line, Successors(poly)) > 0
    ensures IntersectPolygon(line, poly) <==> exists i: nat :: i < |poly| && CrossesEdge(line, poly, i)
  {
    var e := Successors(poly);
    AnyHitIsCount(line, e);
    forall i: nat | i < |poly|
      ensures CrossesEdge(line, poly, i) <==> IntersectSegment(line, e[i].0, e[i].1).Some?
    {
      SuccessorsAt(poly, i);
    }
  }

  /** A point inside the polygon has a non-zero crossing count, so the ray
      from it intersects the polygon. */
  lemma PointInPolygonHitsPolygon(pt: Vec2, poly: seq<Vec2>)
    requires PointInPolygon(pt, poly)
    ensures IntersectPolygon(NewRay(pt, DIAGONAL), poly)
  {
    IntersectPolygonCorrect(NewRay(pt, DIAGONAL), poly);
  }
}
