/** The part of Box2D's vector and box arithmetic that the tree queries use, over the reals. */
module Geometry {

  datatype Vec2 = Vec2(x: real, y: real) {
    function Plus(b: Vec2): Vec2 {
      Vec2(x + b.x, y + b.y)
    }

    function Minus(b: Vec2): Vec2 {
      Vec2(x - b.x, y - b.y)
    }
  }

  function Scale(s: real, a: Vec2): Vec2 {
    Vec2(s * a.x, s * a.y)
  }

  function Dot(a: Vec2, b: Vec2): real {
    a.x * b.x + a.y * b.y
  }

  /** b2Cross of a scalar and a vector. */
  function Cross(s: real, a: Vec2): Vec2 {
    Vec2(-s * a.y, s * a.x)
  }

  function Abs(a: real): real {
    if a > 0.0 then a else -a
  }

  function AbsVec(a: Vec2): Vec2 {
    Vec2(Abs(a.x), Abs(a.y))
  }

  function Min(a: real, b: real): real {
    if a < b then a else b
  }

  function Max(a: real, b: real): real {
    if a > b then a else b
  }

  datatype AABB = AABB(lower: Vec2, upper: Vec2) {
    function Center(): Vec2 {
      Scale(0.5, lower.Plus(upper))
    }

    function Extents(): Vec2 {
      Scale(0.5, upper.Minus(lower))
    }

    predicate Contains(b: AABB) {
      lower.x <= b.lower.x && lower.y <= b.lower.y && b.upper.x <= upper.x && b.upper.y <= upper.y
    }

    predicate HasPoint(p: Vec2) {
      lower.x <= p.x <= upper.x && lower.y <= p.y <= upper.y
    }
  }

  /** b2TestOverlap on boxes. */
  predicate TestOverlap(a: AABB, b: AABB) {
    var d1, d2 := b.lower.Minus(a.upper), a.lower.Minus(b.upper);
    !(d1.x > 0.0 || d1.y > 0.0) && !(d2.x > 0.0 || d2.y > 0.0)
  }

  function PointAt(p1: Vec2, p2: Vec2, fraction: real): Vec2 {
    p1.Plus(Scale(fraction, p2.Minus(p1)))
  }

  /** The bounding box of the segment from p1 to the point at `fraction`. */
  function SegmentBox(p1: Vec2, p2: Vec2, fraction: real): AABB {
    var t := PointAt(p1, p2, fraction);
    AABB(Vec2(Min(p1.x, t.x), Min(p1.y, t.y)), Vec2(Max(p1.x, t.x), Max(p1.y, t.y)))
  }

  /** The separating-axis test of RayCast, for an axis `v` perpendicular to the segment. */
  predicate Separated(v: Vec2, p1: Vec2, box: AABB) {
    Abs(Dot(v, p1.Minus(box.Center()))) - Dot(AbsVec(v), box.Extents()) > 0.0
  }

  lemma ProductSign(a: real, b: real)
    requires a >= 0.0 && b >= 0.0
    ensures a * b >= 0.0
  {
  }

  lemma Between(f: real, m: real, d: real)
    requires 0.0 <= f <= m
    ensures Min(0.0, m * d) <= f * d <= Max(0.0, m * d)
  {
    assert (m - f) * d == m * d - f * d;
    if d >= 0.0 {
      ProductSign(m - f, d);
      ProductSign(f, d);
    } else {
      ProductSign(m - f, -d);
      ProductSign(f, -d);
      assert (m - f) * -d == -((m - f) * d) && f * -d == -(f * d);
    }
  }

  /** A box that the clipped segment meets is never rejected by the segment box. */
  lemma MeetsSegmentBox(p1: Vec2, p2: Vec2, f: real, m: real, box: AABB)
    requires 0.0 <= f <= m && box.HasPoint(PointAt(p1, p2, f))
    ensures TestOverlap(box, SegmentBox(p1, p2, m))
  {
    var d := p2.Minus(p1);
    Between(f, m, d.x);
    Between(f, m, d.y);
    HullMeets(p1, Scale(f, d), Scale(m, d), box);
  }

  lemma HullMeets(p: Vec2, a: Vec2, t: Vec2, box: AABB)
    requires Min(0.0, t.x) <= a.x <= Max(0.0, t.x) && Min(0.0, t.y) <= a.y <= Max(0.0, t.y)
    requires box.HasPoint(p.Plus(a))
    ensures var q := p.Plus(t);
      TestOverlap(box, AABB(Vec2(Min(p.x, q.x), Min(p.y, q.y)), Vec2(Max(p.x, q.x), Max(p.y, q.y))))
  {
  }

  lemma ProductBound(a: real, b: real, h: real)
    requires Abs(b) <= h
    ensures Abs(a * b) <= Abs(a) * h
  {
    var m := Abs(a);
    ProductSign(m, h - b);
    ProductSign(m, h + b);
    assert m * (h - b) == m * h - m * b && m * (h + b) == m * h + m * b;
    assert m * b == a * b || m * b == -(a * b);
  }

  /** Nor by the separating axis, whatever multiple `k` of the unit normal is used. */
  lemma NotSeparated(p1: Vec2, p2: Vec2, k: real, f: real, box: AABB)
    requires box.HasPoint(PointAt(p1, p2, f))
    ensures !Separated(Cross(1.0, Scale(k, p2.Minus(p1))), p1, box)
  {
    var v := Cross(1.0, Scale(k, p2.Minus(p1)));
    AcrossTheSegment(v, k, p2.Minus(p1));
    AxisMisses(v, p1, p2, f, box);
  }

  lemma AxisMisses(v: Vec2, p1: Vec2, p2: Vec2, f: real, box: AABB)
    requires Dot(v, p2.Minus(p1)) == 0.0 && box.HasPoint(PointAt(p1, p2, f))
    ensures !Separated(v, p1, box)
  {
    var d, c, h, q := p2.Minus(p1), box.Center(), box.Extents(), PointAt(p1, p2, f);
    var e, g := p1.Minus(c), q.Minus(c);
    PointWithinExtents(box, q);
    SameDistance(v, f, d, e, g);
    WithinExtents(v, g, h);
  }

  lemma SameDistance(v: Vec2, f: real, d: Vec2, e: Vec2, g: Vec2)
    requires Dot(v, d) == 0.0 && g.x == e.x + f * d.x && g.y == e.y + f * d.y
    ensures Dot(v, g) == Dot(v, e)
  {
    MoveAlong(v.x, v.y, f, d.x, d.y, e.x, e.y, g.x, g.y);
  }

  lemma PointWithinExtents(box: AABB, q: Vec2)
    requires box.HasPoint(q)
    ensures Abs(q.Minus(box.Center()).x) <= box.Extents().x && Abs(q.Minus(box.Center()).y) <= box.Extents().y
  {
  }

  lemma AcrossTheSegment(v: Vec2, k: real, d: Vec2)
    requires v == Cross(1.0, Scale(k, d))
    ensures Dot(v, d) == 0.0
  {
    assert v.x == -(k * d.y) && v.y == k * d.x;
    assert (k * d.y) * d.x == (k * d.x) * d.y;
  }

  /** The distance along an axis perpendicular to the segment is the same all along the segment. */
  lemma MoveAlong(vx: real, vy: real, f: real, x: real, y: real, ex: real, ey: real, gx: real, gy: real)
    requires vx * x + vy * y == 0.0
    requires gx == ex + f * x && gy == ey + f * y
    ensures vx * gx + vy * gy == vx * ex + vy * ey
  {
    assert vx * gx == vx * ex + f * (vx * x);
    assert vy * gy == vy * ey + f * (vy * y);
    assert f * (vx * x) + f * (vy * y) == f * (vx * x + vy * y);
  }

  lemma WithinExtents(v: Vec2, g: Vec2, h: Vec2)
    requires Abs(g.x) <= h.x && Abs(g.y) <= h.y
    ensures Abs(Dot(v, g)) <= Dot(AbsVec(v), h)
  {
    hide Abs;
    var p, m := AxisBound(v.x, g.x, h.x);
    var q, n := AxisBound(v.y, g.y, h.y);
    SumBound(p, q, m, n);
    assert Dot(v, g) == p + q;
  }

  lemma AxisBound(a: real, b: real, h: real) returns (p: real, m: real)
    requires Abs(b) <= h
    ensures p == a * b && m == Abs(a) * h && Abs(p) <= m
  {
    p, m := a * b, Abs(a) * h;
    ProductBound(a, b, h);
  }

  lemma SumBound(a: real, b: real, m: real, n: real)
    requires Abs(a) <= m && Abs(b) <= n
    ensures Abs(a + b) <= m + n
  {
  }
}
