# 3D pen stroke engine — a Dafny model

This project models the stroke engine of a VR "3D pen" (`Mesh3DPenLine`) and
the scene-wide holder of such engines (`Mesh3DPenLineHolder`).

- **Recording.** The engine records the stroke being drawn from the pen tip.
  A new point is recorded only when the tip has moved more than a minimum
  distance.
- **The store.** Finished strokes are kept in three parallel lists: points,
  colour index, bounding box.
- **Rendering.** One renderer per palette colour shows every stroke of that
  colour. The strokes are chained into one polyline, each preceded by a
  far-away break point.
- **Whole-stroke operations.** Three operations search with a sphere:
  - erase the first stroke it touches;
  - clear everything when it touches any stroke;
  - highlight the first stroke it touches.
- **Pixel erase.** Erases only the touched segments of every stroke. It uses
  a toggle rule, recomputes the boxes, and drops strokes left with fewer than
  two points.

Modules, one per concern:

| module | file | contents |
|---|---|---|
| `Geometry` | geometry.dfy | vectors and boxes, the two intersection tests, box computation |
| `Palette` | palette.dfy | colour selection by clamping and wrap-around |
| `Lists` | lists.dfy | removal at an index, selection by indices, first occurrence |
| `StrokeStore` | store.dfy | the three parallel lists as one value, and compaction |
| `StrokeQuery` | stroke_query.dfy | the first stroke touched by a sphere |
| `PixelErase` | pixel_erase.dfy | the toggle walk over one stroke, and a whole erase pass |
| `RenderBatch` | render_batch.dfy | what each colour's renderer shows |
| `PenLine` | pen_line.dfy | class `Mesh3DPenLine`: the engine's state and every operation |
| `PenLineHolder` | line_holder.dfy | class `Mesh3DPenLineHolder` |

**How the engine is stated.**

- The class keeps the source's fields as `seq` fields that its methods
  reassign. Each renderer's point list is the field `batches`. The eraser's
  shader ring is an `array`.
- Each state-changing method states its new state through specification
  functions on values: `AddStroke`, `RemoveStroke`, `Compact`,
  `PixelErasePass`, `Batches`. The properties are proved as lemmas about
  those functions.
- The class invariant `Valid()` holds the store invariant:
  - aligned lists;
  - every stroke of at least two points;
  - every box equal to the bounds of its points;
  - colours inside the palette;
  - batches equal to the projection of the store.

  It also holds the recorder invariant, and every public method keeps it.

**Coordinates, NaN and radii.**

- Coordinates are mathematical reals.
- The segment test divides by the squared segment length. For a zero-length
  segment that is 0/0, NaN in single-precision floats, and a NaN comparison
  is false. The model therefore says such a segment never touches the sphere.
  This matters because every stroke starts with two copies of the tip.
- A zero or negative radius does not turn the search off. The segment test
  uses only the radius squared. The box test checks the centre against the
  box grown by the radius, so a negative radius shrinks the box. The model
  follows the code here (the contract of `SphereAABBIntersectionCheck` and
  `SegmentCheckSeesRadiusSquared`). The code does not reject a zero or
  negative radius, so callers must not rely on it to turn the search off.
  For a negative radius the box test can reject a stroke the segment test
  would accept, so every statement that box culling loses no hit is made
  for r ≥ 0 only.

## Model

| member | source | states |
|---|---|---|
| Geometry.SegmentCheckMeansNearPoint | 3D_Pen_drawing/Mesh3DPenLine.cs:505-513 | For a segment of non-zero length, the clamped-projection test passes exactly when some point of the segment is within r of the centre. A zero-length segment (a == b) never passes. |
| Geometry.BoxCheckAdmitsNearPoints | 3D_Pen_drawing/Mesh3DPenLine.cs:486-501 | The six half-space tests never reject a sphere (r ≥ 0) that contains a point of the box. |
| Geometry.SphereAABBIntersectionCheck | 3D_Pen_drawing/Mesh3DPenLine.cs:486-501 | The six half-space tests hold exactly when the centre lies in the box grown by r on every side (shrunk, for a negative r). |
| Geometry.SegmentSphereIntersectionCheck | 3D_Pen_drawing/Mesh3DPenLine.cs:505-513 | A segment whose ends coincide never passes (0/0 is NaN and the comparison fails); a passing segment has non-zero length. |
| Geometry.SegmentCheckSeesRadiusSquared | 3D_Pen_drawing/Mesh3DPenLine.cs:512 | The segment test gives the same answer for r and -r. |
| Geometry.SegmentHitPassesBoxCheck | 3D_Pen_drawing/Mesh3DPenLine.cs:486-513 | For r ≥ 0, a segment with both ends in a box that passes the segment test also passes the box test on that box, so box culling loses no hit. |
| Geometry.BoundsOfIsTight | 3D_Pen_drawing/Mesh3DPenLine.cs:422-426 | A zero-size box at the first point, grown by every later point, contains every point and touches a point on each of its six faces. |
| Geometry.ComputeBounds | 3D_Pen_drawing/Mesh3DPenLine.cs:322-324 | The encapsulation loop computes exactly `BoundsOf(pts)`, which is tight. |
| Palette.ClampColor | 3D_Pen_drawing/Mesh3DPenLine.cs:190 | The result is a palette index. It is the value itself when in range, 0 below the range, and the last index above it. |
| Palette.NextColor | 3D_Pen_drawing/Mesh3DPenLine.cs:181 | The result is a palette index, c + 1 below the last index, and 0 exactly when c is the last index. |
| Palette.AdvanceWithinRound | 3D_Pen_drawing/Mesh3DPenLine.cs:181 | k increments (k ≤ size) move c forward by k, wrapping once past the end. |
| Palette.FullCycleReturns | 3D_Pen_drawing/Mesh3DPenLine.cs:181 | size increments return to the starting colour, and no smaller positive number of increments does. |
| Lists.RemoveAt | 3D_Pen_drawing/Mesh3DPenLine.cs:433-435 | One element shorter; elements before k stay, elements after k move down by one. |
| Lists.FirstIndexOf | 3D_Pen_drawing/Mesh3DPenLineHolder.cs:23-28 | -1 exactly when x does not occur. Otherwise the index of x, with no earlier occurrence. |
| StrokeStore.AddStroke | 3D_Pen_drawing/Mesh3DPenLine.cs:419-426 | Appending a stroke of two or more points, with its computed box and a palette colour, keeps the store well formed. |
| StrokeStore.RemoveStroke | 3D_Pen_drawing/Mesh3DPenLine.cs:433-435 | Removing one stroke from all three lists keeps them aligned and the store well formed. |
| StrokeStore.KeptFromSelectsLongStrokes | 3D_Pen_drawing/Mesh3DPenLine.cs:386-393 | The surviving indices strictly increase and name exactly the strokes of two or more points. |
| StrokeStore.CompactKeepsExactlyLongStrokes | 3D_Pen_drawing/Mesh3DPenLine.cs:384-395 | Compaction keeps exactly the strokes of two or more points, in order, applying the same selection to all three lists. The result is a well-formed store. |
| StrokeStore.CompactIdentity | 3D_Pen_drawing/Mesh3DPenLine.cs:384-395 | When every stroke has two or more points, compaction keeps every index. |
| StrokeQuery.FirstFrom | 3D_Pen_drawing/Mesh3DPenLine.cs:517-530 | The first stroke from index i on that passes the box test and the segment test, or -1 exactly when none does. |
| StrokeQuery.FirstIntersecting | 3D_Pen_drawing/Mesh3DPenLine.cs:515-531 | -1 exactly when no stroke passes both tests. Otherwise the first one that does. |
| StrokeQuery.MissedBoxMeansNoHit | 3D_Pen_drawing/Mesh3DPenLine.cs:519-521 | For r ≥ 0, if the box test fails on a box holding every point of a stroke, no segment of that stroke touches the sphere. |
| StrokeQuery.CullIsSound | 3D_Pen_drawing/Mesh3DPenLine.cs:519-528 | For r ≥ 0, on a stroke's own bounds, the box test passes or the stroke is not touched. |
| StrokeQuery.FirstIntersectingIsFirstHit | 3D_Pen_drawing/Mesh3DPenLine.cs:515-531 | With consistent boxes and r ≥ 0, the search returns the first stroke that has a touched segment, or -1 exactly when there is none. |
| PixelErase.Walk | 3D_Pen_drawing/Mesh3DPenLine.cs:355-371 | After n segments the walk has kept at most n points, all taken from points 1..n. |
| PixelErase.EraseSegments | 3D_Pen_drawing/Mesh3DPenLine.cs:348-382 | The erased stroke never has exactly one point and is no longer than the input. When non-empty it starts at the first point, and every point comes from the input. |
| PixelErase.WalkRemovedIffHit | 3D_Pen_drawing/Mesh3DPenLine.cs:366-370 | The removed flag after n segments holds exactly when one of them touched the sphere. |
| PixelErase.RemovingIsOddHitCount | 3D_Pen_drawing/Mesh3DPenLine.cs:368 | The removing flag after n segments holds exactly when an odd number of them touched the sphere. |
| PixelErase.EraseReportsHit | 3D_Pen_drawing/Mesh3DPenLine.cs:348-382 | The erase reports a removal exactly when some segment of the stroke touches the sphere. |
| PixelErase.WalkOverUntouchedRun | 3D_Pen_drawing/Mesh3DPenLine.cs:361-365 | Across untouched segments the walk appends their end points while not removing, and changes nothing while removing. |
| PixelErase.UntouchedStrokeUnchanged | 3D_Pen_drawing/Mesh3DPenLine.cs:348-382 | An untouched stroke of two or more points comes back unchanged and unreported. |
| PixelErase.SingleHitTruncates | 3D_Pen_drawing/Mesh3DPenLine.cs:348-382 | With exactly one touched segment k, the stroke is cut after point k; it is emptied when k is 0. |
| PixelErase.AdjacentHitsRejoin | 3D_Pen_drawing/Mesh3DPenLine.cs:348-382 | With exactly the two touched segments k and k+1, points k+1 and k+2 go, and the parts before and after are joined into one stroke; the stroke is emptied if fewer than two points remain. |
| PixelErase.EraseSegmentsInLine | 3D_Pen_drawing/Mesh3DPenLine.cs:348-382 | The loop returns exactly the erased stroke and the removal flag of `EraseSegments`. |
| PixelErase.StepStroke | 3D_Pen_drawing/Mesh3DPenLine.cs:304-334 | The per-stroke step of a pass. A change implies that the colour's renderer box, the stroke's own box and the length guard all passed; no change leaves the points and the box as they were. |
| PixelErase.EraseStrokeOfPass | 3D_Pen_drawing/Mesh3DPenLine.cs:304-334 | The per-stroke body of the pass: colour-box test, stroke-box test, length test, erase, then box recomputation. It equals `StepStroke`. |
| PixelErase.StepStrokeShape | 3D_Pen_drawing/Mesh3DPenLine.cs:304-334 | An unchanged stroke keeps its points and box. A changed stroke was touched and does not have exactly one point. When it has two or more points its box is its bounds. |
| PixelErase.CullingIsTransparent | 3D_Pen_drawing/Mesh3DPenLine.cs:305-312 | For r ≥ 0, when the colour box holds the stroke and the stroke box is its bounds, the two box tests change nothing: the step equals the plain erase. |
| PixelErase.PixelErasePass | 3D_Pen_drawing/Mesh3DPenLine.cs:280-344 | The pass leaves the three lists aligned. |
| PixelErase.UnchangedStepsKeepStore | 3D_Pen_drawing/Mesh3DPenLine.cs:337-343 | When no stroke changed, the store after the per-stroke loop is the store before it. |
| PixelErase.PassKeepsStoreValid | 3D_Pen_drawing/Mesh3DPenLine.cs:280-344 | A pass turns a well-formed store into a well-formed store. A pass that touches no stroke changes nothing. |
| PixelErase.StepsArePlainErase | 3D_Pen_drawing/Mesh3DPenLine.cs:302-335 | With renderer boxes that hold their strokes and r ≥ 0: each step is the plain erase; a step changes exactly when the stroke is touched; a touched stroke's colour box passes. |
| PixelErase.PassIsPlainErase | 3D_Pen_drawing/Mesh3DPenLine.cs:280-344 | Under the same conditions, every pass equals erasing every stroke and dropping those left with fewer than two points, applied to points and colours alike. |
| RenderBatch.EmptyBatches | 3D_Pen_drawing/Mesh3DPenLine.cs:472-479 | Cleared renderers show exactly the batches of an empty store. |
| RenderBatch.BatchAppend | 3D_Pen_drawing/Mesh3DPenLine.cs:409-416 | Appending a stroke extends a colour's batch by the break point and the stroke when the colour matches, and by nothing otherwise. |
| RenderBatch.BatchesAppend | 3D_Pen_drawing/Mesh3DPenLine.cs:409-420 | Extending only the stroke colour's renderer keeps every batch equal to the batches of the extended store. |
| RenderBatch.RemoveKeepsOtherBatches | 3D_Pen_drawing/Mesh3DPenLine.cs:429-437 | Removing a stroke leaves the batch of every other colour exactly as it was. |
| RenderBatch.BatchShowsOwnColour | 3D_Pen_drawing/Mesh3DPenLine.cs:440-459 | A batch is empty exactly when its colour has no stroke of two or more points. It shows only break points and points of strokes of its own colour. |
| PenLine.MovedEnough | 3D_Pen_drawing/Mesh3DPenLine.cs:255-256 | The pixel eraser's movement gate. With no previous position (the "infinitely far" start) it always acts; when it acts after a previous position, the eraser is somewhere new. |
| PenLine.Mesh3DPenLine.constructor | 3D_Pen_drawing/Mesh3DPenLine.cs:63-108 | A fresh engine: empty store and batches, idle, the ring filled with "infinitely far" entries, index 0. The invariant holds. |
| PenLine.Mesh3DPenLine.StartDrawing | 3D_Pen_drawing/Mesh3DPenLine.cs:132-146 | With a tip: drawing, the active line is two copies of the tip, and the last position is the tip. Without a tip, nothing changes. |
| PenLine.Mesh3DPenLine.Update | 3D_Pen_drawing/Mesh3DPenLine.cs:110-125 | While drawing with a tip that moved more than the minimum distance, the tip is appended and becomes the last position. Otherwise nothing changes. The gating invariant is kept. |
| PenLine.Mesh3DPenLine.StopDrawing | 3D_Pen_drawing/Mesh3DPenLine.cs:149-162 | When drawing, an active line of two or more points is added in the current colour. The engine ends idle with an empty active line. |
| PenLine.Mesh3DPenLine.AddLineToMain | 3D_Pen_drawing/Mesh3DPenLine.cs:402-427 | A line of two or more points joins the store with its bounds, and other colours' batches stay. A shorter line changes nothing. The store invariant is kept. |
| PenLine.Mesh3DPenLine.Clear | 3D_Pen_drawing/Mesh3DPenLine.cs:165-175 | Empty store, empty batches, empty active line; the drawing flag and the colour stay. |
| PenLine.Mesh3DPenLine.ClearAllMainLineRenderers | 3D_Pen_drawing/Mesh3DPenLine.cs:472-479 | Every batch is empty and the store is unchanged. |
| PenLine.Mesh3DPenLine.IncrementColor | 3D_Pen_drawing/Mesh3DPenLine.cs:179-184 | The colour becomes `NextColor` of the old one; nothing else changes. |
| PenLine.Mesh3DPenLine.SetColor | 3D_Pen_drawing/Mesh3DPenLine.cs:188-193 | The colour becomes the clamped value; nothing else changes. |
| PenLine.Mesh3DPenLine.ClearCurrentLine | 3D_Pen_drawing/Mesh3DPenLine.cs:196-199 | The active line is emptied; the drawing flag and the last position stay. |
| PenLine.Mesh3DPenLine.GetIntersectingLineIndex | 3D_Pen_drawing/Mesh3DPenLine.cs:515-531 | The nested search returns `FirstIntersecting` of the store. |
| PenLine.Mesh3DPenLine.EraseLine | 3D_Pen_drawing/Mesh3DPenLine.cs:429-438 | A valid index removes that stroke from all lists, and other colours' batches stay. An invalid index changes nothing. |
| PenLine.Mesh3DPenLine.RebuildMainLineRenderers | 3D_Pen_drawing/Mesh3DPenLine.cs:440-459 | The batches become exactly the projection of the store; the store is unchanged. |
| PenLine.Mesh3DPenLine.CheckEraseLine | 3D_Pen_drawing/Mesh3DPenLine.cs:202-209 | The store loses exactly the first stroke the sphere touches. It is unchanged when there is none. |
| PenLine.Mesh3DPenLine.CheckClearLines | 3D_Pen_drawing/Mesh3DPenLine.cs:212-219 | Everything is cleared when some stroke is touched. Otherwise store and active line are unchanged. |
| PenLine.Mesh3DPenLine.ClearMark | 3D_Pen_drawing/Mesh3DPenLine.cs:233-237 | With a marker, the highlight is emptied. Without one, nothing changes. |
| PenLine.Mesh3DPenLine.MarkLine | 3D_Pen_drawing/Mesh3DPenLine.cs:461-470 | With a marker, the highlight becomes the stroke's points; without one nothing changes and the index is not used. |
| PenLine.Mesh3DPenLine.CheckMarkLine | 3D_Pen_drawing/Mesh3DPenLine.cs:223-231 | With a marker, the highlight becomes the first touched stroke, or empty. The store is unchanged. |
| PenLine.Mesh3DPenLine.CheckPixelEraseLine | 3D_Pen_drawing/Mesh3DPenLine.cs:245-276 | Only after the eraser moved far enough: it records the position, writes the ring slot, advances the ring index with wrap-around, and applies `PixelErasePass` to the store. Otherwise nothing changes. |
| PenLine.Mesh3DPenLine.CheckRendererBounds | 3D_Pen_drawing/Mesh3DPenLine.cs:282-298 | One box test per colour renderer, and whether any of them passed. |
| PenLine.Mesh3DPenLine.PixelEraseUpdateLinePositions | 3D_Pen_drawing/Mesh3DPenLine.cs:280-344 | The store becomes `PixelErasePass` of the old store, and the store invariant (batches included) is kept. |
| PenLine.Mesh3DPenLine.EraseTouchedStrokes | 3D_Pen_drawing/Mesh3DPenLine.cs:300-335 | The per-stroke loop updates every stroke and box to its step. It reports exactly whether any stroke changed. |
| PenLine.Mesh3DPenLine.ClearNullLines | 3D_Pen_drawing/Mesh3DPenLine.cs:384-395 | The backward removal loop leaves exactly `Compact` of the old store. |
| PenLineHolder.Mesh3DPenLineHolder.GetLineIndex | 3D_Pen_drawing/Mesh3DPenLineHolder.cs:20-29 | -1 without a list. Otherwise the first slot holding the engine (a missing engine matches the first empty slot), or -1. |
| PenLineHolder.Mesh3DPenLineHolder.ClearAllLines | 3D_Pen_drawing/Mesh3DPenLineHolder.cs:8-18 | Every engine in the list ends cleared and still valid, keeping its colour, drawing flag, last recorded position, highlight, pixel-eraser position and ring index. Repeated entries are handled. |

## Left out

- **Unity rendering.** Line renderers, materials, shader parameters and
  colours are not modelled. Each renderer's point list is modelled as a
  sequence. The shader ring is an array of optional positions; "positive
  infinity" is `None`.
- **Renderer bounds.** The engine reads each main renderer's bounding box
  from Unity. In the model those boxes are a parameter of
  `CheckPixelEraseLine`. `RendererCovers` states the assumption under which
  the box test on them is only a shortcut.
- **The pen tip.** The tip comes from the scene as an optional position. The
  pen model's colour update is not modelled, and no other scene object is.
- **Floating point.** Coordinates are reals, not 32-bit floats: no rounding,
  no overflow. NaN is modelled only where it decides a branch: the
  zero-length segment.
- **Palette and ring sizes.** The palette (`colors` and one main renderer
  per colour) is assumed non-empty, with every renderer present. The
  starting colour must be a palette index, as `StartDrawing` indexes the
  colour array with it every time (3D_Pen_drawing/Mesh3DPenLine.cs:144). The ring size is at least one.
- **Other scripts.** The scripts that call the engine are not part of this
  model: the eraser, the pixel eraser, the pen, the palette UI and the
  interactable.
- **MarkLine.** Like the source, it does not check its index when there is
  a marker. Callers must then pass a stroke index; without a marker it
  returns before using the index.
- **Clear.** It does not stop a stroke in progress and does not clear the
  highlight; the model keeps both, as the code does.
- **PixelErase.PixelErasePass.** Its own contract states only alignment.
  What the pass computes is stated by `PassKeepsStoreValid` and
  `PassIsPlainErase`.
- PenLine.Mesh3DPenLine.constructor: assumes the active-line and highlight
  renderers start empty. Start-up clears only the main renderers
  (3D_Pen_drawing/Mesh3DPenLine.cs:107). The invariant that an idle engine
  has an empty active line relies on this.
- **PixelErase.PassIsPlainErase.** It is stated for renderer boxes that
  hold their strokes and a non-negative radius. Without those, the box tests
  can skip strokes the segment test would erase.
- **Unity's null semantics.** `GetLineIndex` compares references, and a
  destroyed Unity object is not treated as null.
- **Pixel-erase loop body.** The body of the stroke loop and the
  renderer-box loop are separate methods in the model (`EraseStrokeOfPass`,
  `EraseTouchedStrokes`, `CheckRendererBounds`). The source has them inline
  in `PixelEraseUpdateLinePositions`.
