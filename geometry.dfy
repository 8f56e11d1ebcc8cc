/**
 * Points, axis-aligned boxes and the two intersection predicates the stroke
 * engine uses: sphere against box (the broad phase) and sphere against
 * segment (the narrow phase). Coordinates are exact reals.
 */
module Geometry {

  datatype Vec3 = Vec3(x: real, y: real, z: real)

  const Zero := Vec3(0.0, 0.0, 0.0)

  function Add(a: Vec3, b: Vec3): Vec3 { Vec3(a.x + b.x, a.y + b.y, a.z + b.z) }

  function Sub(a: Vec3, b: Vec3): Vec3 { Vec3(a.x - b.x, a.y - b.y, a.z - b.z) }

  function Scale(v: Vec3, t: real): Vec3 { Vec3(v.x * t, v.y * t, v.z * t) }

  function Dot(a: Vec3, b: Vec3): real { a.x * b.x + a.y * b.y + a.z * b.z }

  function SqrMagnitude(v: Vec3): real { Dot(v, v) }

  /** Squared distance between two points. */
  function SqrDist(a: Vec3, b: Vec3): real { SqrMagnitude(Sub(a, b)) }

  /** The point a + (b - a) * t of the line through a and b. */
  function PointAt(a: Vec3, b: Vec3, t: real): Vec3 { Add(a, Scale(Sub(b, a), t)) }

  function Clamp01(t: real): real { if t < 0.0 then 0.0 else if t > 1.0 then 1.0 else t }

  /** An axis-aligned box given by its two corners. */
  datatype Bounds = Bounds(min: Vec3, max: Vec3)

  /** The box a default-constructed bounds value describes: both corners at the origin. */
  const EmptyBounds := Bounds(Zero, Zero)

  predicate InBox(q: Vec3, b: Bounds)
  {
    && b.min.x <= q.x <= b.max.x
    && b.min.y <= q.y <= b.max.y
    && b.min.z <= q.z <= b.max.z
  }

  /**
   * Broad phase: false as soon as one of the six half-space tests separates
   * the sphere (center, radius) from the box [boxMin, boxMax]. Together the
   * tests ask whether the centre lies in the box grown by the radius on
   * every side; a negative radius shrinks the box instead of failing.
   */
  function SphereAABBIntersectionCheck(center: Vec3, radius: real, boxMin: Vec3, boxMax: Vec3): (hit: bool)
    ensures hit <==> InBox(center, Grow(Bounds(boxMin, boxMax), radius))
  {
    if center.x + radius < boxMin.x then false
    else if center.x - radius > boxMax.x then false
    else if center.y + radius < boxMin.y then false
    else if center.y - radius > boxMax.y then false
    else if center.z + radius < boxMin.z then false
    else if center.z - radius > boxMax.z then false
    else true
  }

  /**
   * Narrow phase: project c onto segment [a, b], clamp the parameter to
   * [0, 1] and compare the squared distance of that closest point with r * r.
   * A segment of length zero divides zero by zero; the comparison with the
   * resulting NaN is false, so such a segment never intersects.
   */
  function SegmentSphereIntersectionCheck(c: Vec3, r: real, a: Vec3, b: Vec3): (hit: bool)
    ensures a == b ==> !hit
    ensures hit ==> SqrMagnitude(Sub(b, a)) != 0.0
  {
    var ab := Sub(b, a);
    var len := SqrMagnitude(ab);
    if len == 0.0 then false
    else
      var t := Clamp01(Dot(Sub(c, a), ab) / len);
      SqrDist(PointAt(a, b, t), c) <= r * r
  }

  // ---------------------------------------------------------------------
  // Narrow phase: the clamped projection really is the nearest point

  // Small facts of real arithmetic, each kept free of other context so that
  // the solver's nonlinear reasoning stays cheap.

  lemma MulNonneg(a: real, b: real)
    requires a >= 0.0 && b >= 0.0
    ensures a * b >= 0.0
  {
  }

  lemma MulPos(a: real, b: real)
    requires a > 0.0 && b > 0.0
    ensures a * b > 0.0
  {
  }

  lemma MulMono(a: real, x: real, y: real)
    requires a >= 0.0 && x <= y
    ensures a * x <= a * y
  {
    assert a * y - a * x == a * (y - x);
    MulNonneg(a, y - x);
  }

  lemma SquareNonneg(a: real)
    ensures a * a >= 0.0
  {
  }

  lemma SquaresNonneg(x: real, y: real)
    ensures x * x + y * y >= 0.0
  {
  }

  lemma SquareExpand(w: real, v: real, t: real)
    ensures (w + v * t) * (w + v * t) == w * w + 2.0 * t * (w * v) + t * t * (v * v)
  {
  }

  lemma DivTimes(d: real, l: real)
    requires l > 0.0
    ensures (d / l) * l == d
    ensures d / l < 0.0 <==> d < 0.0
    ensures d / l > 1.0 <==> d > l
  {
    var q := d / l;
    assert q * l == d;
    if q < 0.0 { MulMono(l, q, 0.0); }
    if d < 0.0 && q >= 0.0 { MulNonneg(q, l); }
    if q > 1.0 { MulMono(l, 1.0, q); assert l * q != l * 1.0; }
    if d > l && q <= 1.0 { MulMono(l, q, 1.0); }
  }

  /** The quadratic k - 2 t d + t^2 l. */
  function Quad(k: real, d: real, l: real, t: real): real { k - 2.0 * t * d + t * t * l }

  /** The squared distance from c to PointAt(a, b, t) is a quadratic in t. */
  lemma QuadraticInT(a: Vec3, b: Vec3, c: Vec3, t: real)
    ensures SqrDist(PointAt(a, b, t), c) == Quad(SqrDist(a, c), Dot(Sub(c, a), Sub(b, a)), SqrMagnitude(Sub(b, a)), t)
  {
    var ab, w := Sub(b, a), Sub(a, c);
    var p := Sub(PointAt(a, b, t), c);
    assert p == Vec3(w.x + ab.x * t, w.y + ab.y * t, w.z + ab.z * t);
    SquareExpand(w.x, ab.x, t);
    SquareExpand(w.y, ab.y, t);
    SquareExpand(w.z, ab.z, t);
    var ca := Sub(c, a);
    assert ca == Vec3(-w.x, -w.y, -w.z);
    assert ca.x * ab.x == -(w.x * ab.x) && ca.y * ab.y == -(w.y * ab.y) && ca.z * ab.z == -(w.z * ab.z);
    assert Dot(ca, ab) == -(w.x * ab.x + w.y * ab.y + w.z * ab.z);
  }

  lemma BelowZeroCase(k: real, d: real, l: real, t: real)
    requires l > 0.0 && 0.0 <= t <= 1.0 && d < 0.0
    ensures k <= k - 2.0 * t * d + t * t * l
  {
    MulNonneg(t, -d);
    MulNonneg(t * t, l);
    SquareNonneg(t);
  }

  lemma AboveOneCase(k: real, d: real, l: real, t: real)
    requires l > 0.0 && 0.0 <= t <= 1.0 && d > l
    ensures k - 2.0 * d + l <= k - 2.0 * t * d + t * t * l
  {
    var e := (k - 2.0 * t * d + t * t * l) - (k - 2.0 * d + l);
    assert e == (1.0 - t) * (2.0 * d - l * (t + 1.0));
    MulMono(l, t + 1.0, 2.0);
    MulNonneg(1.0 - t, 2.0 * d - l * (t + 1.0));
  }

  lemma InsideCase(k: real, s: real, l: real, t: real)
    requires l > 0.0
    ensures k - 2.0 * s * (s * l) + s * s * l <= k - 2.0 * t * (s * l) + t * t * l
  {
    var e := (k - 2.0 * t * (s * l) + t * t * l) - (k - 2.0 * s * (s * l) + s * s * l);
    assert e == l * ((t - s) * (t - s));
    SquareNonneg(t - s);
    MulNonneg(l, (t - s) * (t - s));
  }

  /** On [0, 1], the quadratic k - 2 t d + t^2 l (l > 0) is smallest at clamp01(d / l). */
  lemma ClampedMinimum(k: real, d: real, l: real, t: real)
    requires l > 0.0 && 0.0 <= t <= 1.0
    ensures Quad(k, d, l, Clamp01(d / l)) <= Quad(k, d, l, t)
  {
    DivTimes(d, l);
    if d < 0.0 {
      BelowZeroCase(k, d, l, t);
    } else if d > l {
      AboveOneCase(k, d, l, t);
    } else {
      var s := d / l;
      InsideCase(k, s, l, t);
    }
  }

  /** A squared length is never negative. */
  lemma SqrMagnitudeNonneg(v: Vec3)
    ensures SqrMagnitude(v) >= 0.0
  {
  }

  /**
   * The narrow-phase predicate means what it is used for: a segment of
   * positive length intersects the sphere exactly when some point of it lies
   * within r of c, and a segment of length zero (in particular one whose
   * endpoints coincide) never intersects.
   */
  lemma SegmentCheckMeansNearPoint(c: Vec3, r: real, a: Vec3, b: Vec3)
    ensures a == b ==> !SegmentSphereIntersectionCheck(c, r, a, b)
    ensures SqrMagnitude(Sub(b, a)) == 0.0 ==> !SegmentSphereIntersectionCheck(c, r, a, b)
    ensures SqrMagnitude(Sub(b, a)) != 0.0 ==>
      (SegmentSphereIntersectionCheck(c, r, a, b) <==>
       exists t :: 0.0 <= t <= 1.0 && SqrDist(PointAt(a, b, t), c) <= r * r)
  {
    SqrMagnitudeNonneg(Sub(b, a));
    if SqrMagnitude(Sub(b, a)) != 0.0 {
      var l := SqrMagnitude(Sub(b, a));
      var d := Dot(Sub(c, a), Sub(b, a));
      var s := Clamp01(d / l);
      if SegmentSphereIntersectionCheck(c, r, a, b) {
        assert 0.0 <= s <= 1.0 && SqrDist(PointAt(a, b, s), c) <= r * r;
      }
      if exists t :: 0.0 <= t <= 1.0 && SqrDist(PointAt(a, b, t), c) <= r * r {
        var t :| 0.0 <= t <= 1.0 && SqrDist(PointAt(a, b, t), c) <= r * r;
        QuadraticInT(a, b, c, t);
        QuadraticInT(a, b, c, s);
        ClampedMinimum(SqrDist(a, c), d, l, t);
      }
    }
  }

  // ---------------------------------------------------------------------
  // Broad phase: the box test never rejects a sphere that reaches into the box

  lemma SquareLt(x: real, y: real)
    requires 0.0 <= x < y
    ensures x * x < y * y
  {
    assert y * y - x * x == (y - x) * (y + x);
    MulPos(y - x, y + x);
  }

  lemma SquareBound(d: real, r: real)
    requires r >= 0.0 && d * d <= r * r
    ensures -r <= d <= r
  {
    if d > r {
      SquareLt(r, d);
    } else if d < -r {
      assert (-d) * (-d) == d * d;
      SquareLt(r, -d);
    }
  }

  /**
   * A non-negative radius sphere that contains a point of the box passes the
   * broad-phase test: the test only ever rejects spheres that cannot touch
   * anything inside the box.
   */
  lemma BoxCheckAdmitsNearPoints(c: Vec3, r: real, box: Bounds, q: Vec3)
    requires r >= 0.0 && InBox(q, box) && SqrDist(q, c) <= r * r
    ensures SphereAABBIntersectionCheck(c, r, box.min, box.max)
  {
    var d := Sub(q, c);
    SquaresNonneg(d.y, d.z);
    SquaresNonneg(d.x, d.z);
    SquaresNonneg(d.x, d.y);
    SquareBound(d.x, r);
    SquareBound(d.y, r);
    SquareBound(d.z, r);
  }

  lemma BetweenOnLine(lo: real, hi: real, a: real, b: real, t: real)
    requires lo <= a <= hi && lo <= b <= hi && 0.0 <= t <= 1.0
    ensures lo <= a + (b - a) * t <= hi
  {
    var p := (b - a) * t;
    if a <= b {
      MulNonneg(b - a, t);
      assert p >= 0.0;
      MulMono(b - a, t, 1.0);
      assert (b - a) * 1.0 == b - a;
      assert p <= b - a;
    } else {
      MulNonneg(a - b, t);
      MulMono(a - b, t, 1.0);
      assert (a - b) * 1.0 == a - b;
      assert (a - b) * t <= a - b;
      assert p == -((a - b) * t);
      assert p <= 0.0;
      assert p >= b - a;
    }
  }

  /** A box is convex: a segment between two points of it stays inside it. */
  lemma SegmentStaysInBox(a: Vec3, b: Vec3, t: real, box: Bounds)
    requires InBox(a, box) && InBox(b, box) && 0.0 <= t <= 1.0
    ensures InBox(PointAt(a, b, t), box)
  {
    BetweenOnLine(box.min.x, box.max.x, a.x, b.x, t);
    BetweenOnLine(box.min.y, box.max.y, a.y, b.y, t);
    BetweenOnLine(box.min.z, box.max.z, a.z, b.z, t);
  }

  /**
   * Broad-phase soundness for one segment: if both endpoints lie in the box
   * and the radius is not negative, a segment that intersects the sphere
   * implies that the box test passes.
   */
  lemma SegmentHitPassesBoxCheck(c: Vec3, r: real, a: Vec3, b: Vec3, box: Bounds)
    requires r >= 0.0 && InBox(a, box) && InBox(b, box)
    requires SegmentSphereIntersectionCheck(c, r, a, b)
    ensures SphereAABBIntersectionCheck(c, r, box.min, box.max)
  {
    SegmentCheckMeansNearPoint(c, r, a, b);
    var t :| 0.0 <= t <= 1.0 && SqrDist(PointAt(a, b, t), c) <= r * r;
    SegmentStaysInBox(a, b, t, box);
    BoxCheckAdmitsNearPoints(c, r, box, PointAt(a, b, t));
  }

  // ---------------------------------------------------------------------
  // Bounds of a point list

  function MinV(a: Vec3, b: Vec3): Vec3
  {
    Vec3(if a.x <= b.x then a.x else b.x, if a.y <= b.y then a.y else b.y, if a.z <= b.z then a.z else b.z)
  }

  function MaxV(a: Vec3, b: Vec3): Vec3
  {
    Vec3(if a.x >= b.x then a.x else b.x, if a.y >= b.y then a.y else b.y, if a.z >= b.z then a.z else b.z)
  }

  /** Grow a box just enough to contain p. */
  function Encapsulate(box: Bounds, p: Vec3): Bounds
  {
    Bounds(MinV(box.min, p), MaxV(box.max, p))
  }

  /** A zero-size box at pts[0], encapsulating every later point in turn. */
  function BoundsOf(pts: seq<Vec3>): Bounds
    requires |pts| >= 1
  {
    if |pts| == 1 then Bounds(pts[0], pts[0])
    else Encapsulate(BoundsOf(pts[..|pts| - 1]), pts[|pts| - 1])
  }

  /** Every point lies in the box and each of the six faces touches some point. */
  ghost predicate Tight(box: Bounds, pts: seq<Vec3>)
  {
    && (forall i :: 0 <= i < |pts| ==> InBox(pts[i], box))
    && (exists i :: 0 <= i < |pts| && pts[i].x == box.min.x)
    && (exists i :: 0 <= i < |pts| && pts[i].y == box.min.y)
    && (exists i :: 0 <= i < |pts| && pts[i].z == box.min.z)
    && (exists i :: 0 <= i < |pts| && pts[i].x == box.max.x)
    && (exists i :: 0 <= i < |pts| && pts[i].y == box.max.y)
    && (exists i :: 0 <= i < |pts| && pts[i].z == box.max.z)
  }

  /** The encapsulated box is the tightest box around the points. */
  lemma {:induction false} BoundsOfIsTight(pts: seq<Vec3>)
    requires |pts| >= 1
    ensures Tight(BoundsOf(pts), pts)
  {
    if |pts| > 1 {
      var init, p := pts[..|pts| - 1], pts[|pts| - 1];
      BoundsOfIsTight(init);
      var b0 := BoundsOf(init);
      var b := BoundsOf(pts);
      assert b == Encapsulate(b0, p);
      forall i | 0 <= i < |pts| ensures InBox(pts[i], b) {
        if i < |pts| - 1 { assert pts[i] == init[i] && InBox(init[i], b0); }
      }
      var last := |pts| - 1;
      if p.x < b0.min.x { assert pts[last].x == b.min.x; }
      else { var i :| 0 <= i < |init| && init[i].x == b0.min.x; assert pts[i].x == b.min.x; }
      if p.y < b0.min.y { assert pts[last].y == b.min.y; }
      else { var i :| 0 <= i < |init| && init[i].y == b0.min.y; assert pts[i].y == b.min.y; }
      if p.z < b0.min.z { assert pts[last].z == b.min.z; }
      else { var i :| 0 <= i < |init| && init[i].z == b0.min.z; assert pts[i].z == b.min.z; }
      if p.x > b0.max.x { assert pts[last].x == b.max.x; }
      else { var i :| 0 <= i < |init| && init[i].x == b0.max.x; assert pts[i].x == b.max.x; }
      if p.y > b0.max.y { assert pts[last].y == b.max.y; }
      else { var i :| 0 <= i < |init| && init[i].y == b0.max.y; assert pts[i].y == b.max.y; }
      if p.z > b0.max.z { assert pts[last].z == b.max.z; }
      else { var i :| 0 <= i < |init| && init[i].z == b0.max.z; assert pts[i].z == b.max.z; }
    }
  }

  /**
   * The bounds loop: start with a zero-size box at the first point and
   * encapsulate every other point. The result is the tightest box.
   */
  method ComputeBounds(pts: seq<Vec3>) returns (box: Bounds)
    requires |pts| >= 1
    ensures box == BoundsOf(pts)
    ensures Tight(box, pts)
  {
    box := Bounds(pts[0], pts[0]);
    var i := 1;
    while i < |pts|
      invariant 1 <= i <= |pts|
      invariant box == BoundsOf(pts[..i])
    {
      assert pts[..i + 1][..i] == pts[..i];
      box := Encapsulate(box, pts[i]);
      i := i + 1;
    }
    assert pts[..i] == pts;
    BoundsOfIsTight(pts);
  }

  /** The box grown by d on every side (shrunk when d is negative). */
  function Grow(box: Bounds, d: real): Bounds
  {
    Bounds(Sub(box.min, Vec3(d, d, d)), Add(box.max, Vec3(d, d, d)))
  }

  /**
   * The segment test sees the radius only squared: a negative radius acts
   * as its absolute value.
   */
  lemma SegmentCheckSeesRadiusSquared(c: Vec3, r: real, a: Vec3, b: Vec3)
    ensures SegmentSphereIntersectionCheck(c, r, a, b) == SegmentSphereIntersectionCheck(c, -r, a, b)
  {
    assert r * r == (-r) * (-r);
  }
}
