/**
 * Which finished stroke the eraser sphere touches. A stroke is a candidate
 * when the sphere passes the test against the stroke's stored box and one of
 * its segments passes the segment test; the query answers the first
 * candidate in store order, or -1.
 */
module StrokeQuery {
  import opened Geometry

  /** Segment p of a stroke, from point p to point p + 1, touches the sphere. */
  predicate SegmentHit(pts: seq<Vec3>, c: Vec3, r: real, p: int)
    requires 0 <= p < |pts| - 1
  {
    SegmentSphereIntersectionCheck(c, r, pts[p], pts[p + 1])
  }

  /** Some segment of the stroke touches the sphere. */
  predicate LineHits(pts: seq<Vec3>, c: Vec3, r: real)
  {
    exists p :: 0 <= p < |pts| - 1 && SegmentHit(pts, c, r, p)
  }

  /** Stroke i passes the box test on its stored bounds and the segment test. */
  predicate Candidate(ps: seq<seq<Vec3>>, bs: seq<Bounds>, c: Vec3, r: real, i: int)
    requires |bs| == |ps| && 0 <= i < |ps|
  {
    SphereAABBIntersectionCheck(c, r, bs[i].min, bs[i].max) && LineHits(ps[i], c, r)
  }

  /** The first candidate at index i or later, or -1. */
  function FirstFrom(ps: seq<seq<Vec3>>, bs: seq<Bounds>, c: Vec3, r: real, i: int): (k: int)
    requires |bs| == |ps| && 0 <= i <= |ps|
    ensures k == -1 || i <= k < |ps|
    ensures k == -1 <==> forall j :: i <= j < |ps| ==> !Candidate(ps, bs, c, r, j)
    ensures k >= 0 ==> Candidate(ps, bs, c, r, k) && forall j :: i <= j < k ==> !Candidate(ps, bs, c, r, j)
    decreases |ps| - i
  {
    if i == |ps| then -1
    else if Candidate(ps, bs, c, r, i) then i
    else FirstFrom(ps, bs, c, r, i + 1)
  }

  /** The answer of the stroke query: the first candidate, or -1 when there is none. */
  function FirstIntersecting(ps: seq<seq<Vec3>>, bs: seq<Bounds>, c: Vec3, r: real): (k: int)
    requires |bs| == |ps|
    ensures -1 <= k < |ps|
    ensures k == -1 <==> forall j :: 0 <= j < |ps| ==> !Candidate(ps, bs, c, r, j)
    ensures k >= 0 ==> Candidate(ps, bs, c, r, k) && forall j :: 0 <= j < k ==> !Candidate(ps, bs, c, r, j)
  {
    FirstFrom(ps, bs, c, r, 0)
  }

  /**
   * A sphere of non-negative radius that fails the box test against a box
   * holding every point of a stroke touches no segment of that stroke.
   */
  lemma MissedBoxMeansNoHit(pts: seq<Vec3>, box: Bounds, c: Vec3, r: real)
    requires r >= 0.0
    requires forall i :: 0 <= i < |pts| ==> InBox(pts[i], box)
    requires !SphereAABBIntersectionCheck(c, r, box.min, box.max)
    ensures !LineHits(pts, c, r)
  {
    if LineHits(pts, c, r) {
      var p :| 0 <= p < |pts| - 1 && SegmentHit(pts, c, r, p);
      SegmentHitPassesBoxCheck(c, r, pts[p], pts[p + 1], box);
    }
  }

  /**
   * The box test is only a shortcut: with the stored bounds equal to the
   * bounds of the stroke and a non-negative radius, a stroke is a candidate
   * exactly when one of its segments touches the sphere.
   */
  lemma CullIsSound(pts: seq<Vec3>, box: Bounds, c: Vec3, r: real)
    requires r >= 0.0 && |pts| >= 1 && box == BoundsOf(pts)
    ensures SphereAABBIntersectionCheck(c, r, box.min, box.max) || !LineHits(pts, c, r)
  {
    BoundsOfIsTight(pts);
    if !SphereAABBIntersectionCheck(c, r, box.min, box.max) {
      MissedBoxMeansNoHit(pts, box, c, r);
    }
  }

  /** Every stored box is the bounds of its (non-empty) stroke. */
  ghost predicate BoundsConsistent(ps: seq<seq<Vec3>>, bs: seq<Bounds>)
  {
    |bs| == |ps| && forall i :: 0 <= i < |ps| ==> |ps[i]| >= 1 && bs[i] == BoundsOf(ps[i])
  }

  /**
   * With consistent bounds and a non-negative radius, the query finds the
   * first stroke that really touches the sphere, and -1 exactly when none does.
   */
  lemma FirstIntersectingIsFirstHit(ps: seq<seq<Vec3>>, bs: seq<Bounds>, c: Vec3, r: real)
    requires r >= 0.0 && BoundsConsistent(ps, bs)
    ensures var k := FirstIntersecting(ps, bs, c, r);
      && (k == -1 <==> forall j :: 0 <= j < |ps| ==> !LineHits(ps[j], c, r))
      && (k >= 0 ==> LineHits(ps[k], c, r) && forall j :: 0 <= j < k ==> !LineHits(ps[j], c, r))
  {
    forall j | 0 <= j < |ps|
      ensures Candidate(ps, bs, c, r, j) <==> LineHits(ps[j], c, r)
    {
      CullIsSound(ps[j], bs[j], c, r);
    }
  }
}
