/**
 * The stroke engine of the 3D pen: it records the stroke being drawn, keeps
 * the finished strokes in three parallel lists (points, colour index,
 * bounds), shows them through one batch per colour, and erases whole strokes
 * or the parts of strokes an eraser sphere touches.
 *
 * The pen tip position, the eraser position and radius and the renderers'
 * bounding boxes come from the scene; they are parameters of the methods.
 */
module PenLine {
  import opened Geometry
  import opened Lists
  import opened Palette
  import opened StrokeQuery
  import opened StrokeStore
  import opened PixelErase
  import opened RenderBatch

  datatype Option<T> = None | Some(value: T)

  /**
   * The pixel eraser acts only after moving more than minDist since the
   * position it last acted at; before its first action that position is
   * infinitely far away, so the first call always acts.
   */
  function MovedEnough(last: Option<Vec3>, p: Vec3, minDist: real): (moved: bool)
    ensures last.None? ==> moved
    ensures moved && last.Some? ==> p != last.value
  {
    match last
    case None => true
    case Some(q) =>
      SquareNonneg(minDist);
      assert Sub(p, p) == Zero;
      SqrDist(p, q) > minDist * minDist
  }

  class Mesh3DPenLine {
    /** Number of colours, and of main renderers (one per colour). */
    const paletteSize: nat
    const minMoveDistance: real
    const pixelEraserMinMoveDistance: real
    /** Whether a marking renderer is attached. */
    const hasMarker: bool
    /** The ring of recent pixel-eraser positions handed to the shader. */
    const shaderPoints: array<Option<Vec3>>

    var linePositions: seq<seq<Vec3>>
    var lineColorIndices: seq<int>
    var lineBounds: seq<Bounds>
    /** The point list of each colour's main renderer. */
    var batches: seq<seq<Vec3>>

    var colorIndex: int
    var isDrawing: bool
    var lastPointPosition: Vec3
    /** The point list of the renderer showing the stroke being drawn. */
    var currentLine: seq<Vec3>
    /** The point list of the marking renderer. */
    var markLine: seq<Vec3>

    var lastPixelEraserPosition: Option<Vec3>
    var shaderIndex: int

    /** The three stroke lists as one value. */
    function Current(): Store
      reads this
    {
      Store(linePositions, lineColorIndices, lineBounds)
    }

    /** A well-formed store, shown exactly by the colour batches. */
    ghost predicate StoreInvariant()
      reads this
    {
      && paletteSize >= 1
      && StoreValid(Current(), paletteSize)
      && batches == Batches(linePositions, lineColorIndices, paletteSize)
    }

    /**
     * The recorder: idle means no active line; while drawing, the last
     * recorded position is the end of the active line; every point after the
     * first two is further than the minimum move distance from the one
     * before it.
     */
    ghost predicate RecorderInvariant()
      reads this
    {
      && (!isDrawing ==> currentLine == [])
      && (isDrawing && currentLine != [] ==> lastPointPosition == currentLine[|currentLine| - 1])
      && (forall i :: 2 <= i < |currentLine| ==>
            SqrDist(currentLine[i], currentLine[i - 1]) > minMoveDistance * minMoveDistance)
    }

    ghost predicate Valid()
      reads this
    {
      && StoreInvariant()
      && RecorderInvariant()
      && 0 <= colorIndex < paletteSize
      && 0 <= shaderIndex < shaderPoints.Length
    }

    twostate predicate StoreUnchanged()
      reads this
    {
      && linePositions == old(linePositions) && lineColorIndices == old(lineColorIndices)
      && lineBounds == old(lineBounds) && batches == old(batches)
    }

    twostate predicate RecorderUnchanged()
      reads this
    {
      isDrawing == old(isDrawing) && lastPointPosition == old(lastPointPosition) && currentLine == old(currentLine)
    }

    twostate predicate SelectionUnchanged()
      reads this
    {
      colorIndex == old(colorIndex) && markLine == old(markLine)
    }

    twostate predicate EraserUnchanged()
      reads this
    {
      lastPixelEraserPosition == old(lastPixelEraserPosition) && shaderIndex == old(shaderIndex)
    }

    /**
     * A fresh engine after start-up: no strokes, empty batches, the eraser
     * ring filled with "infinitely far" entries.
     */
    constructor(paletteSize: nat, initialColor: int, minMoveDistance: real,
                pixelEraserMinMoveDistance: real, bufferSize: int, hasMarker: bool)
      requires paletteSize >= 1 && 0 <= initialColor < paletteSize && bufferSize >= 1
      ensures Valid()
      ensures this.paletteSize == paletteSize && this.minMoveDistance == minMoveDistance
      ensures this.pixelEraserMinMoveDistance == pixelEraserMinMoveDistance && this.hasMarker == hasMarker
      ensures Current() == EmptyStore && batches == EmptyBatches(paletteSize)
      ensures colorIndex == initialColor && !isDrawing && currentLine == [] && markLine == []
      ensures lastPixelEraserPosition == None && shaderIndex == 0
      ensures fresh(shaderPoints) && shaderPoints.Length == bufferSize
      ensures forall i :: 0 <= i < bufferSize ==> shaderPoints[i] == None
    {
      this.paletteSize := paletteSize;
      this.minMoveDistance := minMoveDistance;
      this.pixelEraserMinMoveDistance := pixelEraserMinMoveDistance;
      this.hasMarker := hasMarker;
      shaderPoints := new Option<Vec3>[bufferSize](_ => None);
      linePositions, lineColorIndices, lineBounds := [], [], [];
      batches := EmptyBatches(paletteSize);
      colorIndex := initialColor;
      isDrawing := false;
      lastPointPosition := Zero;
      currentLine := [];
      markLine := [];
      lastPixelEraserPosition := None;
      shaderIndex := 0;
    }

    // -------------------------------------------------------------------
    // Recording a stroke

    /** Start a stroke at the pen tip with two copies of the tip; no tip, no stroke. */
    method StartDrawing(tip: Option<Vec3>)
      requires Valid()
      modifies this
      ensures Valid()
      ensures tip.None? ==> RecorderUnchanged()
      ensures tip.Some? ==>
        isDrawing && currentLine == [tip.value, tip.value] && lastPointPosition == tip.value
      ensures StoreUnchanged() && SelectionUnchanged() && EraserUnchanged()
    {
      if tip.None? {
        return;
      }
      isDrawing := true;
      lastPointPosition := tip.value;
      currentLine := [tip.value, tip.value];
    }

    /**
     * One frame while drawing: record the tip when it has moved more than
     * the minimum distance since the last recorded position.
     */
    method Update(tip: Option<Vec3>)
      requires Valid()
      modifies this
      ensures Valid()
      ensures var moved := old(isDrawing) && tip.Some? &&
          SqrDist(tip.value, old(lastPointPosition)) > minMoveDistance * minMoveDistance;
        && currentLine == (if moved then old(currentLine) + [tip.value] else old(currentLine))
        && lastPointPosition == (if moved then tip.value else old(lastPointPosition))
      ensures isDrawing == old(isDrawing)
      ensures StoreUnchanged() && SelectionUnchanged() && EraserUnchanged()
    {
      if isDrawing && tip.Some? {
        var sqrDist := SqrDist(tip.value, lastPointPosition);
        if sqrDist > minMoveDistance * minMoveDistance {
          currentLine := currentLine + [tip.value];
          lastPointPosition := tip.value;
        }
      }
    }

    /**
     * Finish the stroke being drawn: a line of two or more points joins the
     * store in the current colour; the active line is emptied either way.
     */
    method StopDrawing()
      requires Valid()
      modifies this
      ensures Valid()
      ensures !isDrawing && currentLine == []
      ensures old(isDrawing) && |old(currentLine)| >= 2 ==>
        Current() == AddStroke(old(Current()), old(currentLine), colorIndex)
      ensures !(old(isDrawing) && |old(currentLine)| >= 2) ==> StoreUnchanged()
      ensures lastPointPosition == old(lastPointPosition)
      ensures SelectionUnchanged() && EraserUnchanged()
    {
      if !isDrawing {
        return;
      }
      isDrawing := false;
      AddLineToMain(currentLine, colorIndex);
      currentLine := [];
    }

    /**
     * Add a finished line to the store and append it, after a break point,
     * to its colour's batch; lines of fewer than two points are ignored.
     */
    method AddLineToMain(points: seq<Vec3>, colorIdx: int)
      requires StoreInvariant() && 0 <= colorIdx < paletteSize
      modifies this
      ensures StoreInvariant()
      ensures |points| >= 2 ==> Current() == AddStroke(old(Current()), points, colorIdx)
      ensures |points| < 2 ==> StoreUnchanged()
      ensures forall col :: 0 <= col < paletteSize && col != colorIdx ==> batches[col] == old(batches[col])
      ensures RecorderUnchanged() && SelectionUnchanged() && EraserUnchanged()
    {
      if |points| < 2 {
        return;
      }
      BatchesAppend(linePositions, lineColorIndices, points, colorIdx, paletteSize, batches);
      batches := batches[colorIdx := batches[colorIdx] + ([LineBreak] + points)];
      linePositions := linePositions + [points];
      lineColorIndices := lineColorIndices + [colorIdx];
      var b := ComputeBounds(points);
      lineBounds := lineBounds + [b];
    }

    /** Drop every stroke, empty every batch and the active line. */
    method Clear()
      requires Valid()
      modifies this
      ensures Valid()
      ensures Current() == EmptyStore && batches == EmptyBatches(paletteSize) && currentLine == []
      ensures isDrawing == old(isDrawing) && lastPointPosition == old(lastPointPosition)
      ensures SelectionUnchanged() && EraserUnchanged()
    {
      linePositions, lineColorIndices, lineBounds := [], [], [];
      ClearAllMainLineRenderers();
      currentLine := [];
    }

    /** Empty the point list of every main renderer. */
    method ClearAllMainLineRenderers()
      modifies this
      ensures batches == EmptyBatches(paletteSize)
      ensures Current() == old(Current())
      ensures RecorderUnchanged() && SelectionUnchanged() && EraserUnchanged()
    {
      batches := EmptyBatches(paletteSize);
    }

    /** Select the next colour, wrapping after the last one. */
    method IncrementColor()
      requires Valid()
      modifies this
      ensures Valid()
      ensures colorIndex == NextColor(old(colorIndex), paletteSize)
      ensures markLine == old(markLine)
      ensures StoreUnchanged() && RecorderUnchanged() && EraserUnchanged()
    {
      colorIndex := (colorIndex + 1) % paletteSize;
    }

    /** Select a colour by index, clamped into the palette. */
    method SetColor(value: int)
      requires Valid()
      modifies this
      ensures Valid()
      ensures colorIndex == ClampColor(value, paletteSize)
      ensures markLine == old(markLine)
      ensures StoreUnchanged() && RecorderUnchanged() && EraserUnchanged()
    {
      colorIndex := ClampColor(value, paletteSize);
    }

    /** Empty the active line; recording goes on if a stroke is being drawn. */
    method ClearCurrentLine()
      requires Valid()
      modifies this
      ensures Valid()
      ensures currentLine == []
      ensures isDrawing == old(isDrawing) && lastPointPosition == old(lastPointPosition)
      ensures StoreUnchanged() && SelectionUnchanged() && EraserUnchanged()
    {
      currentLine := [];
    }

    // -------------------------------------------------------------------
    // Whole-stroke erasing and marking

    /**
     * The first stroke whose box passes the sphere test and one of whose
     * segments touches the sphere, or -1.
     */
    method GetIntersectingLineIndex(position: Vec3, radius: real) returns (index: int)
      requires Aligned(Current())
      ensures index == FirstIntersecting(linePositions, lineBounds, position, radius)
    {
      var i := 0;
      while i < |linePositions|
        invariant 0 <= i <= |linePositions|
        invariant forall j :: 0 <= j < i ==> !Candidate(linePositions, lineBounds, position, radius, j)
      {
        var bounds := lineBounds[i];
        if SphereAABBIntersectionCheck(position, radius, bounds.min, bounds.max) {
          var pts := linePositions[i];
          var p := 0;
          while p < |pts| - 1
            invariant 0 <= p <= (if |pts| >= 1 then |pts| - 1 else 0)
            invariant forall q :: 0 <= q < p ==> !SegmentHit(pts, position, radius, q)
          {
            if SegmentSphereIntersectionCheck(position, radius, pts[p], pts[p + 1]) {
              assert SegmentHit(pts, position, radius, p);
              assert Candidate(linePositions, lineBounds, position, radius, i);
              return i;
            }
            p := p + 1;
          }
        }
        i := i + 1;
      }
      return -1;
    }

    /** Remove stroke index from all three lists and rebuild the batches; a bad index does nothing. */
    method EraseLine(index: int)
      requires Valid()
      modifies this
      ensures Valid()
      ensures 0 <= index < |old(linePositions)| ==> Current() == RemoveStroke(old(Current()), index)
      ensures !(0 <= index < |old(linePositions)|) ==> StoreUnchanged()
      ensures 0 <= index < |old(linePositions)| ==>
        forall col :: 0 <= col < paletteSize && col != old(lineColorIndices[index]) ==> batches[col] == old(batches[col])
      ensures RecorderUnchanged() && SelectionUnchanged() && EraserUnchanged()
    {
      if index < 0 || index >= |linePositions| {
        return;
      }
      var oldPositions, oldColors := linePositions, lineColorIndices;
      linePositions := RemoveAt(linePositions, index);
      lineColorIndices := RemoveAt(lineColorIndices, index);
      lineBounds := RemoveAt(lineBounds, index);
      RebuildMainLineRenderers();
      forall col | 0 <= col < paletteSize && col != oldColors[index]
        ensures batches[col] == old(batches[col])
      {
        RemoveKeepsOtherBatches(oldPositions, oldColors, index, col);
      }
    }

    /** Rebuild every batch from the store, in store order. */
    method RebuildMainLineRenderers()
      requires Aligned(Current()) && ColorsBelow(Current(), paletteSize)
      modifies this
      ensures Current() == old(Current())
      ensures batches == Batches(linePositions, lineColorIndices, paletteSize)
      ensures RecorderUnchanged() && SelectionUnchanged() && EraserUnchanged()
    {
      ClearAllMainLineRenderers();
      var i := 0;
      while i < |linePositions|
        invariant 0 <= i <= |linePositions|
        invariant Current() == old(Current())
        invariant RecorderUnchanged() && SelectionUnchanged() && EraserUnchanged()
        invariant batches == Batches(linePositions[..i], lineColorIndices[..i], paletteSize)
      {
        var pts := linePositions[i];
        var cIdx := lineColorIndices[i];
        BatchesAppend(linePositions[..i], lineColorIndices[..i], pts, cIdx, paletteSize, batches);
        assert linePositions[..i] + [pts] == linePositions[..i + 1];
        assert lineColorIndices[..i] + [cIdx] == lineColorIndices[..i + 1];
        if |pts| >= 2 {
          batches := batches[cIdx := batches[cIdx] + ([LineBreak] + pts)];
        } else {
          assert Piece(pts, cIdx, cIdx) == [];
          assert batches[cIdx] + [] == batches[cIdx];
        }
        i := i + 1;
      }
      assert linePositions[..i] == linePositions && lineColorIndices[..i] == lineColorIndices;
    }

    /** Erase the first stroke the sphere touches, if any. */
    method CheckEraseLine(position: Vec3, radius: real)
      requires Valid()
      modifies this
      ensures Valid()
      ensures var k := old(FirstIntersecting(linePositions, lineBounds, position, radius));
        && (k >= 0 ==> Current() == RemoveStroke(old(Current()), k))
        && (k < 0 ==> StoreUnchanged())
      ensures RecorderUnchanged() && SelectionUnchanged() && EraserUnchanged()
    {
      var index := GetIntersectingLineIndex(position, radius);
      if index >= 0 {
        EraseLine(index);
      }
    }

    /** Clear everything when the sphere touches any stroke. */
    method CheckClearLines(position: Vec3, radius: real)
      requires Valid()
      modifies this
      ensures Valid()
      ensures var k := old(FirstIntersecting(linePositions, lineBounds, position, radius));
        && (k >= 0 ==> Current() == EmptyStore && batches == EmptyBatches(paletteSize) && currentLine == [])
        && (k < 0 ==> StoreUnchanged() && currentLine == old(currentLine))
      ensures isDrawing == old(isDrawing) && lastPointPosition == old(lastPointPosition)
      ensures SelectionUnchanged() && EraserUnchanged()
    {
      var idx := GetIntersectingLineIndex(position, radius);
      if idx >= 0 {
        Clear();
      }
    }

    /** Empty the marking renderer, when there is one. */
    method ClearMark()
      requires Valid()
      modifies this
      ensures Valid()
      ensures markLine == if hasMarker then [] else old(markLine)
      ensures colorIndex == old(colorIndex)
      ensures StoreUnchanged() && RecorderUnchanged() && EraserUnchanged()
    {
      if hasMarker {
        markLine := [];
      }
    }

    /** Show stroke index in the marking renderer, when there is one. */
    method MarkLine(index: int)
      requires Valid() && (hasMarker ==> 0 <= index < |linePositions|)
      modifies this
      ensures Valid()
      ensures StoreUnchanged() && RecorderUnchanged() && EraserUnchanged()
      ensures markLine == if hasMarker then linePositions[index] else old(markLine)
      ensures colorIndex == old(colorIndex)
    {
      if !hasMarker {
        return;
      }
      markLine := linePositions[index];
    }

    /** Highlight the first stroke the sphere touches, or nothing. */
    method CheckMarkLine(position: Vec3, radius: real)
      requires Valid()
      modifies this
      ensures Valid()
      ensures var k := FirstIntersecting(linePositions, lineBounds, position, radius);
        markLine == if !hasMarker then old(markLine) else if k >= 0 then linePositions[k] else []
      ensures colorIndex == old(colorIndex)
      ensures StoreUnchanged() && RecorderUnchanged() && EraserUnchanged()
    {
      ClearMark();
      var idx := GetIntersectingLineIndex(position, radius);
      if idx >= 0 {
        MarkLine(idx);
      }
    }

    // -------------------------------------------------------------------
    // Pixel erasing

    /**
     * Each frame of the pixel eraser: when it has moved far enough, record
     * its position, write it into the shader ring (wrapping at the end) and
     * run one erase pass over the store.
     */
    method CheckPixelEraseLine(eraserPosition: Vec3, eraseRadius: real, rendererBounds: seq<Bounds>)
      requires Valid() && |rendererBounds| == paletteSize
      modifies this, shaderPoints
      ensures Valid()
      ensures MovedEnough(old(lastPixelEraserPosition), eraserPosition, pixelEraserMinMoveDistance) ==>
        && lastPixelEraserPosition == Some(eraserPosition)
        && shaderPoints[..] == old(shaderPoints[..])[old(shaderIndex) := Some(eraserPosition)]
        && shaderIndex == (if old(shaderIndex) + 1 == shaderPoints.Length then 0 else old(shaderIndex) + 1)
        && Current() == PixelErasePass(old(Current()), eraserPosition, eraseRadius, rendererBounds)
      ensures !MovedEnough(old(lastPixelEraserPosition), eraserPosition, pixelEraserMinMoveDistance) ==>
        && EraserUnchanged() && StoreUnchanged() && shaderPoints[..] == old(shaderPoints[..])
      ensures RecorderUnchanged() && SelectionUnchanged()
    {
      if !MovedEnough(lastPixelEraserPosition, eraserPosition, pixelEraserMinMoveDistance) {
        return;
      }
      lastPixelEraserPosition := Some(eraserPosition);
      shaderPoints[shaderIndex] := Some(eraserPosition);
      shaderIndex := shaderIndex + 1;
      if shaderIndex >= shaderPoints.Length {
        shaderIndex := 0;
      }
      PixelEraseUpdateLinePositions(eraserPosition, eraseRadius, rendererBounds);
    }

    /**
     * The first half of an erase pass: test the sphere against each colour's
     * renderer box, and report whether any of them is reached.
     */
    method CheckRendererBounds(position: Vec3, radius: real, rendererBounds: seq<Bounds>)
      returns (checks: seq<bool>, intersectedAny: bool)
      ensures checks == RendererChecks(position, radius, rendererBounds)
      ensures intersectedAny <==> exists j :: 0 <= j < |checks| && checks[j]
    {
      checks := [];
      intersectedAny := false;
      var i := 0;
      while i < |rendererBounds|
        invariant 0 <= i <= |rendererBounds|
        invariant checks == RendererChecks(position, radius, rendererBounds[..i])
        invariant intersectedAny <==> exists j :: 0 <= j < i && checks[j]
      {
        var lrBounds := rendererBounds[i];
        var hit := SphereAABBIntersectionCheck(position, radius, lrBounds.min, lrBounds.max);
        ghost var before := checks;
        checks := checks + [hit];
        assert rendererBounds[..i + 1] == rendererBounds[..i] + [lrBounds];
        assert forall j :: 0 <= j < i ==> checks[j] == before[j];
        assert checks[i] == hit;
        if hit {
          intersectedAny := true;
        }
        i := i + 1;
      }
      assert rendererBounds[..i] == rendererBounds;
    }

    /**
     * One erase pass: test the sphere against every colour's renderer box;
     * if it reaches none, stop. Otherwise erase the touched parts of every
     * stroke whose colour box, own box and length pass, recompute the bounds
     * of changed strokes and, when anything changed, drop the emptied
     * strokes and rebuild the batches.
     */
    method PixelEraseUpdateLinePositions(position: Vec3, radius: real, rendererBounds: seq<Bounds>)
      requires StoreInvariant() && |rendererBounds| == paletteSize
      modifies this
      ensures StoreInvariant()
      ensures Current() == PixelErasePass(old(Current()), position, radius, rendererBounds)
      ensures RecorderUnchanged() && SelectionUnchanged() && EraserUnchanged()
    {
      ghost var s0 := Current();
      var checks, intersectedAny := CheckRendererBounds(position, radius, rendererBounds);
      PassKeepsStoreValid(s0, position, radius, rendererBounds);
      if !intersectedAny {
        return;
      }
      var erasedAny := EraseTouchedStrokes(position, radius, checks);
      if erasedAny {
        ClearNullLines();
        RebuildMainLineRenderers();
      } else {
        UnchangedStepsKeepStore(s0, paletteSize, position, radius, checks);
      }
    }

    /**
     * The second half of an erase pass: every stroke whose colour box, own
     * box and length pass has its touched parts erased and, when that
     * removed something, its bounds recomputed; the result reports whether
     * any stroke changed.
     */
    method EraseTouchedStrokes(position: Vec3, radius: real, checks: seq<bool>) returns (erasedAny: bool)
      requires Aligned(Current()) && ColorsBelow(Current(), |checks|)
      modifies this
      ensures Aligned(Current()) && lineColorIndices == old(lineColorIndices)
      ensures Current() == Stepped(old(Current()), StepAll(old(Current()), position, radius, checks))
      ensures erasedAny == AnyChanged(StepAll(old(Current()), position, radius, checks))
      ensures batches == old(batches)
      ensures RecorderUnchanged() && SelectionUnchanged() && EraserUnchanged()
    {
      ghost var s0 := Current();
      ghost var steps := StepAll(s0, position, radius, checks);
      erasedAny := false;
      var i := 0;
      while i < |linePositions|
        invariant 0 <= i <= |s0.positions|
        invariant |linePositions| == |s0.positions| && |lineBounds| == |s0.positions|
        invariant lineColorIndices == s0.colors && batches == old(batches)
        invariant forall j :: 0 <= j < i ==> linePositions[j] == steps[j].points && lineBounds[j] == steps[j].bounds
        invariant forall j :: i <= j < |s0.positions| ==> linePositions[j] == s0.positions[j] && lineBounds[j] == s0.bounds[j]
        invariant erasedAny <==> exists j :: 0 <= j < i && steps[j].changed
        invariant RecorderUnchanged() && SelectionUnchanged() && EraserUnchanged()
      {
        ghost var st := steps[i];
        assert st == StepStroke(s0.positions[i], s0.bounds[i], s0.colors[i], position, radius, checks);
        var newPts, newBounds, changedLine :=
          EraseStrokeOfPass(linePositions[i], lineBounds[i], lineColorIndices[i], position, radius, checks);
        assert newPts == st.points && newBounds == st.bounds && changedLine == st.changed;
        StepExtendsPrefix(linePositions, lineBounds, steps, i);
        if changedLine {
          erasedAny := true;
        }
        linePositions := linePositions[i := newPts];
        lineBounds := lineBounds[i := newBounds];
        i := i + 1;
      }
      assert Current() == Stepped(s0, steps);
    }

    /** Remove, from all three lists, every stroke with fewer than two points. */
    method ClearNullLines()
      requires Aligned(Current())
      modifies this
      ensures Current() == Compact(old(Current()))
      ensures batches == old(batches)
      ensures RecorderUnchanged() && SelectionUnchanged() && EraserUnchanged()
    {
      ghost var ps0, cs0, bs0 := linePositions, lineColorIndices, lineBounds;
      var i := |linePositions| - 1;
      while i >= 0
        invariant -1 <= i < |ps0|
        invariant linePositions == ps0[..i + 1] + Select(ps0, KeptFrom(ps0, i + 1))
        invariant lineColorIndices == cs0[..i + 1] + Select(cs0, KeptFrom(ps0, i + 1))
        invariant lineBounds == bs0[..i + 1] + Select(bs0, KeptFrom(ps0, i + 1))
        invariant batches == old(batches)
        invariant RecorderUnchanged() && SelectionUnchanged() && EraserUnchanged()
      {
        assert linePositions[i] == ps0[i];
        if |linePositions[i]| < 2 {
          CompactDropStep(ps0, ps0, i);
          CompactDropStep(cs0, ps0, i);
          CompactDropStep(bs0, ps0, i);
          linePositions := RemoveAt(linePositions, i);
          lineColorIndices := RemoveAt(lineColorIndices, i);
          lineBounds := RemoveAt(lineBounds, i);
        } else {
          CompactKeepStep(ps0, ps0, i);
          CompactKeepStep(cs0, ps0, i);
          CompactKeepStep(bs0, ps0, i);
        }
        i := i - 1;
      }
    }
  }
}
