/**
 * Partial ("pixel") erasing of one stroke, and the compaction of the store
 * afterwards.
 *
 * The eraser walks the segments of a stroke in order, starting with the
 * first point kept. A segment the sphere does not touch contributes its end
 * point unless the walk is currently removing; a segment the sphere touches
 * contributes nothing and toggles removing. A result with fewer than two
 * points becomes the empty stroke.
 */
module PixelErase {
  import opened Geometry
  import opened StrokeQuery
  import opened Lists
  import opened StrokeStore

  /** The state of the walk after some number of segments. */
  datatype WalkState = WalkState(kept: seq<Vec3>, removing: bool, removed: bool)

  /** The walk over the first n segments of pts (segment q joins pts[q] and pts[q + 1]). */
  function Walk(pts: seq<Vec3>, c: Vec3, r: real, n: int): (w: WalkState)
    requires 0 <= n < |pts|
    ensures |w.kept| <= n
    ensures forall x :: x in w.kept ==> x in pts[1..n + 1]
  {
    if n == 0 then WalkState([], false, false)
    else
      var w := Walk(pts, c, r, n - 1);
      assert pts[1..n] == pts[1..n + 1][..n - 1];
      if !SegmentHit(pts, c, r, n - 1) then
        if w.removing then w else w.(kept := w.kept + [pts[n]])
      else
        w.(removing := !w.removing, removed := true)
  }

  /** The erased stroke and whether any segment was touched. */
  datatype Erased = Erased(points: seq<Vec3>, removed: bool)

  /**
   * Erase the parts of a stroke the sphere touches. The result keeps the
   * first point, never has exactly one point, never grows, and holds only
   * points of the original stroke.
   */
  function EraseSegments(pts: seq<Vec3>, c: Vec3, r: real): (e: Erased)
    requires |pts| >= 1
    ensures |e.points| != 1 && |e.points| <= |pts|
    ensures e.points != [] ==> e.points[0] == pts[0]
    ensures forall x :: x in e.points ==> x in pts
  {
    var w := Walk(pts, c, r, |pts| - 1);
    var line := [pts[0]] + w.kept;
    assert forall x :: x in w.kept ==> x in pts;
    Erased(if |line| < 2 then [] else line, w.removed)
  }

  /** The number of touched segments among the first n. */
  function HitCount(pts: seq<Vec3>, c: Vec3, r: real, n: int): (h: nat)
    requires 0 <= n < |pts|
    ensures h <= n
  {
    if n == 0 then 0
    else HitCount(pts, c, r, n - 1) + (if SegmentHit(pts, c, r, n - 1) then 1 else 0)
  }

  /** The walk has removed something exactly when one of the walked segments was touched. */
  lemma {:induction false} WalkRemovedIffHit(pts: seq<Vec3>, c: Vec3, r: real, n: int)
    requires 0 <= n < |pts|
    ensures Walk(pts, c, r, n).removed <==> exists q :: 0 <= q < n && SegmentHit(pts, c, r, q)
  {
    if n > 0 {
      WalkRemovedIffHit(pts, c, r, n - 1);
    }
  }

  /** The walk is removing exactly after an odd number of touched segments. */
  lemma {:induction false} RemovingIsOddHitCount(pts: seq<Vec3>, c: Vec3, r: real, n: int)
    requires 0 <= n < |pts|
    ensures Walk(pts, c, r, n).removing <==> HitCount(pts, c, r, n) % 2 == 1
  {
    if n > 0 {
      RemovingIsOddHitCount(pts, c, r, n - 1);
      var h := HitCount(pts, c, r, n - 1);
      assert (h + 1) % 2 == 1 <==> h % 2 == 0;
    }
  }

  /** The erase reports a change exactly when the sphere touches some segment. */
  lemma EraseReportsHit(pts: seq<Vec3>, c: Vec3, r: real)
    requires |pts| >= 1
    ensures EraseSegments(pts, c, r).removed <==> LineHits(pts, c, r)
  {
    WalkRemovedIffHit(pts, c, r, |pts| - 1);
  }

  /**
   * Over a run of untouched segments m .. n - 1 the walk either keeps every
   * end point (not removing) or keeps nothing (removing).
   */
  lemma {:induction false} WalkOverUntouchedRun(pts: seq<Vec3>, c: Vec3, r: real, m: int, n: int)
    requires 0 <= m <= n < |pts|
    requires forall q :: m <= q < n ==> !SegmentHit(pts, c, r, q)
    ensures var wm := Walk(pts, c, r, m);
      Walk(pts, c, r, n) == if wm.removing then wm else wm.(kept := wm.kept + pts[m + 1..n + 1])
  {
    if n > m {
      WalkOverUntouchedRun(pts, c, r, m, n - 1);
      var wm := Walk(pts, c, r, m);
      if !wm.removing {
        assert pts[m + 1..n + 1] == pts[m + 1..n] + [pts[n]];
      }
    }
  }

  /** A stroke the sphere does not touch comes back unchanged. */
  lemma UntouchedStrokeUnchanged(pts: seq<Vec3>, c: Vec3, r: real)
    requires |pts| >= 2 && !LineHits(pts, c, r)
    ensures EraseSegments(pts, c, r) == Erased(pts, false)
  {
    WalkOverUntouchedRun(pts, c, r, 0, |pts| - 1);
    WalkRemovedIffHit(pts, c, r, |pts| - 1);
    assert [pts[0]] + pts[1..] == pts;
  }

  /**
   * When the sphere touches exactly one segment k, the stroke is cut there:
   * points 0 .. k survive and everything after the touched segment is lost.
   */
  lemma SingleHitTruncates(pts: seq<Vec3>, c: Vec3, r: real, k: int)
    requires 0 <= k < |pts| - 1 && SegmentHit(pts, c, r, k)
    requires forall q :: 0 <= q < |pts| - 1 && q != k ==> !SegmentHit(pts, c, r, q)
    ensures EraseSegments(pts, c, r) == Erased(if k == 0 then [] else pts[..k + 1], true)
  {
    WalkOverUntouchedRun(pts, c, r, 0, k);
    var w0 := Walk(pts, c, r, 0);
    var wk := Walk(pts, c, r, k);
    assert wk == WalkState(pts[1..k + 1], false, false) by {
      assert w0 == WalkState([], false, false);
      assert [] + pts[1..k + 1] == pts[1..k + 1];
    }
    var wk1 := Walk(pts, c, r, k + 1);
    assert wk1 == WalkState(pts[1..k + 1], true, true);
    WalkOverUntouchedRun(pts, c, r, k + 1, |pts| - 1);
    assert Walk(pts, c, r, |pts| - 1) == wk1;
    assert [pts[0]] + pts[1..k + 1] == pts[..k + 1];
  }

  /**
   * When the sphere touches exactly the two adjacent segments k and k + 1,
   * the second touch switches removing off again: points k + 1 and k + 2 are
   * dropped and the stroke rejoins from point k directly to point k + 3.
   */
  lemma AdjacentHitsRejoin(pts: seq<Vec3>, c: Vec3, r: real, k: int)
    requires 0 <= k && k + 2 < |pts| && SegmentHit(pts, c, r, k) && SegmentHit(pts, c, r, k + 1)
    requires forall q :: 0 <= q < |pts| - 1 && q != k && q != k + 1 ==> !SegmentHit(pts, c, r, q)
    ensures var rest := pts[..k + 1] + pts[k + 3..];
      EraseSegments(pts, c, r) == Erased(if |rest| < 2 then [] else rest, true)
  {
    WalkOverUntouchedRun(pts, c, r, 0, k);
    WalkOverUntouchedRun(pts, c, r, k + 2, |pts| - 1);
    assert [pts[0]] + (pts[1..k + 1] + pts[k + 3..]) == pts[..k + 1] + pts[k + 3..];
  }

  /** The erase loop, walking the segments and collecting the surviving points. */
  method EraseSegmentsInLine(pts: seq<Vec3>, center: Vec3, radius: real) returns (newPts: seq<Vec3>, removed: bool)
    requires |pts| >= 1
    ensures Erased(newPts, removed) == EraseSegments(pts, center, radius)
  {
    removed := false;
    var newLine := [pts[0]];
    var removing := false;
    var i := 0;
    while i < |pts| - 1
      invariant 0 <= i <= |pts| - 1
      invariant |newLine| >= 1 && newLine[0] == pts[0]
      invariant Walk(pts, center, radius, i) == WalkState(newLine[1..], removing, removed)
    {
      var a, b := pts[i], pts[i + 1];
      var intersects := SegmentSphereIntersectionCheck(center, radius, a, b);
      if !intersects {
        if !removing {
          newLine := newLine + [b];
        }
      } else {
        removing := !removing;
        removed := true;
      }
      i := i + 1;
    }
    assert newLine == [pts[0]] + newLine[1..];
    if |newLine| < 2 {
      newPts := [];
    } else {
      newPts := newLine;
    }
  }

  // ---------------------------------------------------------------------
  // One stroke of a pixel-erase pass

  /** The new points and bounds of a stroke after a pass, and whether it changed. */
  datatype StrokeStep = StrokeStep(points: seq<Vec3>, bounds: Bounds, changed: bool)

  /**
   * One stroke of a pass: skipped unless its colour's renderer box, its own
   * box and its length all pass; otherwise erased, and its bounds recomputed
   * when something was removed (the default box when fewer than two points
   * remain).
   */
  function StepStroke(pts: seq<Vec3>, b: Bounds, col: int, c: Vec3, r: real, checks: seq<bool>): (s: StrokeStep)
    requires 0 <= col < |checks|
    ensures s.changed ==> checks[col] && SphereAABBIntersectionCheck(c, r, b.min, b.max) && |pts| >= 2
    ensures !s.changed ==> s.points == pts && s.bounds == b
  {
    if !checks[col] || !SphereAABBIntersectionCheck(c, r, b.min, b.max) || |pts| < 2 then
      StrokeStep(pts, b, false)
    else
      var e := EraseSegments(pts, c, r);
      EraseReportsHit(pts, c, r);
      if e.removed then
        StrokeStep(e.points, if |e.points| >= 2 then BoundsOf(e.points) else EmptyBounds, true)
      else
        UntouchedStrokeUnchanged(pts, c, r);
        StrokeStep(e.points, b, false)
  }

  /**
   * One more stroke of the pass loop done: replacing entry i of the point
   * and box lists by step i extends the prefix that matches the steps.
   */
  lemma StepExtendsPrefix(ps: seq<seq<Vec3>>, bs: seq<Bounds>, steps: seq<StrokeStep>, i: int)
    requires |bs| == |ps| && |steps| == |ps| && 0 <= i < |ps|
    requires forall j :: 0 <= j < i ==> ps[j] == steps[j].points && bs[j] == steps[j].bounds
    ensures forall j :: 0 <= j <= i ==>
      ps[i := steps[i].points][j] == steps[j].points && bs[i := steps[i].bounds][j] == steps[j].bounds
  {
  }

  /**
   * The body of the pass loop for one stroke: the colour test, the box test
   * and the length test, then the erase and, when something was removed, the
   * bounds recomputation. The statement-by-statement form of `StepStroke`,
   * which the rest of the model reasons about.
   */
  method EraseStrokeOfPass(pts: seq<Vec3>, b: Bounds, col: int, c: Vec3, r: real, checks: seq<bool>)
    returns (newPts: seq<Vec3>, newBounds: Bounds, changed: bool)
    requires 0 <= col < |checks|
    ensures StrokeStep(newPts, newBounds, changed) == StepStroke(pts, b, col, c, r, checks)
  {
    newPts, newBounds, changed := pts, b, false;
    if !checks[col] {
      return;
    }
    if !SphereAABBIntersectionCheck(c, r, b.min, b.max) {
      return;
    }
    if |pts| < 2 {
      return;
    }
    newPts, changed := EraseSegmentsInLine(pts, c, r);
    if changed {
      if |newPts| >= 2 {
        newBounds := ComputeBounds(newPts);
      } else {
        newBounds := EmptyBounds;
      }
    }
  }

  /**
   * A pass keeps every stroke well formed: an unchanged stroke of two or more
   * points keeps its points and its box, a changed one has either no points
   * or at least two with its box recomputed, and only touched strokes change.
   */
  lemma StepStrokeShape(pts: seq<Vec3>, b: Bounds, col: int, c: Vec3, r: real, checks: seq<bool>)
    requires 0 <= col < |checks| && |pts| >= 2
    ensures var s := StepStroke(pts, b, col, c, r, checks);
      && (!s.changed ==> s.points == pts && s.bounds == b)
      && (s.changed ==> LineHits(pts, c, r) && |s.points| != 1)
      && (s.changed && |s.points| >= 2 ==> s.bounds == BoundsOf(s.points))
  {
    EraseReportsHit(pts, c, r);
    if !LineHits(pts, c, r) {
      UntouchedStrokeUnchanged(pts, c, r);
    }
  }

  /**
   * The two box tests of a pass are only shortcuts: when the stored bounds
   * are the stroke's own, the colour's renderer box holds every point of the
   * stroke and the radius is not negative, the pass erases the stroke exactly
   * as the plain segment walk does, and changes it exactly when the sphere
   * touches it.
   */
  lemma CullingIsTransparent(pts: seq<Vec3>, b: Bounds, col: int, c: Vec3, r: real, checks: seq<bool>, rbox: Bounds)
    requires 0 <= col < |checks| && |pts| >= 2 && r >= 0.0 && b == BoundsOf(pts)
    requires checks[col] == SphereAABBIntersectionCheck(c, r, rbox.min, rbox.max)
    requires forall i :: 0 <= i < |pts| ==> InBox(pts[i], rbox)
    ensures StepStroke(pts, b, col, c, r, checks).points == EraseSegments(pts, c, r).points
    ensures StepStroke(pts, b, col, c, r, checks).changed <==> LineHits(pts, c, r)
  {
    EraseReportsHit(pts, c, r);
    CullIsSound(pts, b, c, r);
    if !checks[col] {
      MissedBoxMeansNoHit(pts, rbox, c, r);
    }
    if !LineHits(pts, c, r) {
      UntouchedStrokeUnchanged(pts, c, r);
    }
  }

  // ---------------------------------------------------------------------
  // A pass over the whole store

  /** Which colours' renderer boxes the sphere reaches (index = colour). */
  function RendererChecks(c: Vec3, r: real, rendererBounds: seq<Bounds>): seq<bool>
  {
    seq(|rendererBounds|, i requires 0 <= i < |rendererBounds| =>
      SphereAABBIntersectionCheck(c, r, rendererBounds[i].min, rendererBounds[i].max))
  }

  /** Every colour of the store indexes the given list of checks. */
  predicate ColorsBelow(s: Store, n: int)
  {
    forall i :: 0 <= i < |s.colors| ==> 0 <= s.colors[i] < n
  }

  /** Each stroke of the store after its own step. */
  function StepAll(s: Store, c: Vec3, r: real, checks: seq<bool>): seq<StrokeStep>
    requires Aligned(s) && ColorsBelow(s, |checks|)
  {
    seq(|s.positions|, i requires 0 <= i < |s.positions| =>
      StepStroke(s.positions[i], s.bounds[i], s.colors[i], c, r, checks))
  }

  /** The store with every stroke's points and bounds replaced by its step. */
  function Stepped(s: Store, steps: seq<StrokeStep>): Store
    requires Aligned(s) && |steps| == |s.positions|
  {
    Store(seq(|steps|, i requires 0 <= i < |steps| => steps[i].points),
          s.colors,
          seq(|steps|, i requires 0 <= i < |steps| => steps[i].bounds))
  }

  predicate AnyChanged(steps: seq<StrokeStep>)
  {
    exists i :: 0 <= i < |steps| && steps[i].changed
  }

  /**
   * One pixel-erase pass over the store: nothing when the sphere reaches no
   * colour's renderer box; otherwise every stroke takes its step, and when
   * some stroke changed the store is compacted.
   */
  function PixelErasePass(s: Store, c: Vec3, r: real, rendererBounds: seq<Bounds>): (t: Store)
    requires Aligned(s) && ColorsBelow(s, |rendererBounds|)
    ensures Aligned(t)
  {
    var checks := RendererChecks(c, r, rendererBounds);
    if !(exists j :: 0 <= j < |checks| && checks[j]) then s
    else
      var steps := StepAll(s, c, r, checks);
      var t := Stepped(s, steps);
      if AnyChanged(steps) then Compact(t) else t
  }

  /** Steps that changed nothing leave a well-formed store exactly as it was. */
  lemma UnchangedStepsKeepStore(s: Store, size: int, c: Vec3, r: real, checks: seq<bool>)
    requires StoreValid(s, size) && ColorsBelow(s, |checks|)
    requires !AnyChanged(StepAll(s, c, r, checks))
    ensures Stepped(s, StepAll(s, c, r, checks)) == s
  {
    var steps := StepAll(s, c, r, checks);
    var t := Stepped(s, steps);
    forall i | 0 <= i < |s.positions|
      ensures t.positions[i] == s.positions[i] && t.bounds[i] == s.bounds[i]
    {
      StepStrokeShape(s.positions[i], s.bounds[i], s.colors[i], c, r, checks);
      assert !steps[i].changed;
    }
  }

  /**
   * A pass keeps the store well formed, and a pass whose sphere touches no
   * stroke leaves the store unchanged.
   */
  lemma PassKeepsStoreValid(s: Store, c: Vec3, r: real, rendererBounds: seq<Bounds>)
    requires StoreValid(s, |rendererBounds|)
    ensures StoreValid(PixelErasePass(s, c, r, rendererBounds), |rendererBounds|)
    ensures (forall i :: 0 <= i < |s.positions| ==> !LineHits(s.positions[i], c, r)) ==>
      PixelErasePass(s, c, r, rendererBounds) == s
  {
    var size := |rendererBounds|;
    var checks := RendererChecks(c, r, rendererBounds);
    if exists j :: 0 <= j < |checks| && checks[j] {
      var steps := StepAll(s, c, r, checks);
      var t := Stepped(s, steps);
      forall i | 0 <= i < |s.positions|
        ensures steps[i].changed ==> LineHits(s.positions[i], c, r)
        ensures |t.positions[i]| >= 2 ==> t.bounds[i] == BoundsOf(t.positions[i]) && 0 <= t.colors[i] < size
      {
        StepStrokeShape(s.positions[i], s.bounds[i], s.colors[i], c, r, checks);
      }
      if AnyChanged(steps) {
        CompactKeepsExactlyLongStrokes(t, size);
      } else {
        UnchangedStepsKeepStore(s, size, c, r, checks);
      }
    }
  }

  /** The renderer box of each stroke's colour holds every point of the stroke. */
  ghost predicate RendererCovers(s: Store, rendererBounds: seq<Bounds>)
    requires Aligned(s) && ColorsBelow(s, |rendererBounds|)
  {
    forall i, q :: 0 <= i < |s.positions| && 0 <= q < |s.positions[i]| ==>
      InBox(s.positions[i][q], rendererBounds[s.colors[i]])
  }

  /** Every stroke erased by the plain segment walk, with no box tests. */
  function EraseEach(ps: seq<seq<Vec3>>, c: Vec3, r: real): (es: seq<seq<Vec3>>)
    requires forall i :: 0 <= i < |ps| ==> |ps[i]| >= 1
    ensures |es| == |ps|
  {
    seq(|ps|, i requires 0 <= i < |ps| => EraseSegments(ps[i], c, r).points)
  }

  /** With covering renderer boxes, each step is the plain segment walk. */
  lemma StepsArePlainErase(s: Store, c: Vec3, r: real, rendererBounds: seq<Bounds>)
    requires r >= 0.0 && StoreValid(s, |rendererBounds|) && RendererCovers(s, rendererBounds)
    ensures var checks := RendererChecks(c, r, rendererBounds);
      var steps := StepAll(s, c, r, checks);
      forall i :: 0 <= i < |s.positions| ==>
        && steps[i].points == EraseSegments(s.positions[i], c, r).points
        && (steps[i].changed <==> LineHits(s.positions[i], c, r))
        && (LineHits(s.positions[i], c, r) ==> checks[s.colors[i]])
  {
    var checks := RendererChecks(c, r, rendererBounds);
    forall i | 0 <= i < |s.positions|
      ensures var st := StepStroke(s.positions[i], s.bounds[i], s.colors[i], c, r, checks);
        && st.points == EraseSegments(s.positions[i], c, r).points
        && (st.changed <==> LineHits(s.positions[i], c, r))
        && (LineHits(s.positions[i], c, r) ==> checks[s.colors[i]])
    {
      var col := s.colors[i];
      CullingIsTransparent(s.positions[i], s.bounds[i], col, c, r, checks, rendererBounds[col]);
      if !checks[col] {
        MissedBoxMeansNoHit(s.positions[i], rendererBounds[col], c, r);
      }
    }
  }

  /** PassIsPlainErase for a pass in which the sphere touches stroke i. */
  lemma TouchingPassIsPlainErase(s: Store, c: Vec3, r: real, rendererBounds: seq<Bounds>, i: int)
    requires r >= 0.0 && StoreValid(s, |rendererBounds|) && RendererCovers(s, rendererBounds)
    requires 0 <= i < |s.positions| && LineHits(s.positions[i], c, r)
    ensures PixelErasePass(s, c, r, rendererBounds).positions ==
      Select(EraseEach(s.positions, c, r), Kept(EraseEach(s.positions, c, r)))
    ensures PixelErasePass(s, c, r, rendererBounds).colors ==
      Select(s.colors, Kept(EraseEach(s.positions, c, r)))
  {
    var checks := RendererChecks(c, r, rendererBounds);
    var steps := StepAll(s, c, r, checks);
    var es := EraseEach(s.positions, c, r);
    StepsArePlainErase(s, c, r, rendererBounds);
    assert checks[s.colors[i]];
    assert steps[i].changed;
    var t := Stepped(s, steps);
    assert t.positions == es;
  }

  /**
   * The box tests of a pass are only shortcuts: with a well-formed store,
   * renderer boxes that hold their strokes and a non-negative radius, every
   * pass equals erasing every stroke with the plain segment walk and then
   * dropping the strokes left with fewer than two points, for points and
   * colours alike.
   */
  lemma PassIsPlainErase(s: Store, c: Vec3, r: real, rendererBounds: seq<Bounds>)
    requires r >= 0.0 && StoreValid(s, |rendererBounds|) && RendererCovers(s, rendererBounds)
    ensures PixelErasePass(s, c, r, rendererBounds).positions ==
      Select(EraseEach(s.positions, c, r), Kept(EraseEach(s.positions, c, r)))
    ensures PixelErasePass(s, c, r, rendererBounds).colors ==
      Select(s.colors, Kept(EraseEach(s.positions, c, r)))
  {
    if i :| 0 <= i < |s.positions| && LineHits(s.positions[i], c, r) {
      TouchingPassIsPlainErase(s, c, r, rendererBounds, i);
    } else {
      PassKeepsStoreValid(s, c, r, rendererBounds);
      var es := EraseEach(s.positions, c, r);
      forall j | 0 <= j < |s.positions|
        ensures es[j] == s.positions[j]
      {
        UntouchedStrokeUnchanged(s.positions[j], c, r);
      }
      assert es == s.positions;
      CompactIdentity(es, 0);
      assert Kept(es) == seq(|es|, k => k);
      SelectAll(s.positions);
      SelectAll(s.colors);
    }
  }
}
