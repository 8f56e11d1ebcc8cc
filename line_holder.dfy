/**
 * The scene-wide list of pen engines: find an engine's slot, or clear every
 * engine at once.
 */
module PenLineHolder {
  import opened Lists
  import opened StrokeStore
  import opened RenderBatch
  import opened PenLine

  class Mesh3DPenLineHolder {
    /** The engines in the scene; the list itself or any slot may be missing. */
    var mesh3DPenLines: array?<Mesh3DPenLine?>

    /** The engines present in the list. */
    ghost function Engines(): set<Mesh3DPenLine>
      reads this, mesh3DPenLines
    {
      if mesh3DPenLines == null then {}
      else set i | 0 <= i < mesh3DPenLines.Length && mesh3DPenLines[i] != null :: mesh3DPenLines[i]
    }

    /**
     * The first slot holding exactly the given engine (a missing engine
     * matches the first empty slot), or -1 when there is none or there is
     * no list.
     */
    method GetLineIndex(line: Mesh3DPenLine?) returns (k: int)
      ensures mesh3DPenLines == null ==> k == -1
      ensures mesh3DPenLines != null ==> k == FirstIndexOf(mesh3DPenLines[..], line)
    {
      if mesh3DPenLines == null {
        return -1;
      }
      var i := 0;
      while i < mesh3DPenLines.Length
        invariant 0 <= i <= mesh3DPenLines.Length
        invariant line !in mesh3DPenLines[..i]
      {
        if mesh3DPenLines[i] == line {
          assert mesh3DPenLines[..][..i] == mesh3DPenLines[..i];
          return i;
        }
        assert mesh3DPenLines[..i + 1] == mesh3DPenLines[..i] + [mesh3DPenLines[i]];
        i := i + 1;
      }
      assert mesh3DPenLines[..i] == mesh3DPenLines[..];
      return -1;
    }

    /**
     * Clear every engine in the list: each one ends with no strokes, empty
     * batches and no active line. A stroke in progress is not stopped: the
     * drawing flag and last recorded position stay, and so do the selected
     * colour, the highlight and the pixel eraser's state.
     */
    method ClearAllLines()
      requires forall e :: e in Engines() ==> e.Valid()
      modifies Engines()
      ensures forall e :: e in Engines() ==>
        && e.Valid()
        && e.Current() == EmptyStore
        && e.batches == EmptyBatches(e.paletteSize)
        && e.currentLine == []
        && e.isDrawing == old(e.isDrawing)
        && e.lastPointPosition == old(e.lastPointPosition)
        && e.colorIndex == old(e.colorIndex)
        && e.markLine == old(e.markLine)
        && e.lastPixelEraserPosition == old(e.lastPixelEraserPosition)
        && e.shaderIndex == old(e.shaderIndex)
    {
      if mesh3DPenLines == null {
        return;
      }
      var i := 0;
      while i < mesh3DPenLines.Length
        invariant 0 <= i <= mesh3DPenLines.Length
        invariant forall e :: e in Engines() ==>
          && e.Valid()
          && e.isDrawing == old(e.isDrawing)
          && e.lastPointPosition == old(e.lastPointPosition)
          && e.colorIndex == old(e.colorIndex)
          && e.markLine == old(e.markLine)
          && e.lastPixelEraserPosition == old(e.lastPixelEraserPosition)
          && e.shaderIndex == old(e.shaderIndex)
        invariant forall j :: 0 <= j < i && mesh3DPenLines[j] != null ==>
          && mesh3DPenLines[j].Current() == EmptyStore
          && mesh3DPenLines[j].batches == EmptyBatches(mesh3DPenLines[j].paletteSize)
          && mesh3DPenLines[j].currentLine == []
      {
        var line := mesh3DPenLines[i];
        if line != null {
          line.Clear();
        }
        i := i + 1;
      }
    }
  }
}
