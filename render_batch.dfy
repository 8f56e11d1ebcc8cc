/**
 * What each colour's main renderer shows. A renderer draws one polyline, so
 * every stroke of its colour is appended after a far-away break point that
 * hides the connecting segment.
 */
module RenderBatch {
  import opened Geometry
  import opened Lists

  /** The break point placed before each stroke in a batch. */
  const LineBreak := Vec3(0.0, -10000.0, 0.0)

  /** The contribution of one stroke to the batch of colour col. */
  function Piece(pts: seq<Vec3>, color: int, col: int): seq<Vec3>
  {
    if color == col && |pts| >= 2 then [LineBreak] + pts else []
  }

  /**
   * The batch of colour col: the strokes of that colour with at least two
   * points, in store order, each preceded by the break point.
   */
  function Batch(ps: seq<seq<Vec3>>, cs: seq<int>, col: int): seq<Vec3>
    requires |cs| == |ps|
  {
    if ps == [] then []
    else
      var n := |ps| - 1;
      Batch(ps[..n], cs[..n], col) + Piece(ps[n], cs[n], col)
  }

  /** The batches of all colours 0 .. size - 1. */
  function Batches(ps: seq<seq<Vec3>>, cs: seq<int>, size: nat): seq<seq<Vec3>>
    requires |cs| == |ps|
  {
    seq(size, col => Batch(ps, cs, col))
  }

  /** All batches empty: what clearing the renderers leaves. */
  function EmptyBatches(size: nat): (bs: seq<seq<Vec3>>)
    ensures bs == Batches([], [], size)
  {
    seq(size, col => [])
  }

  /** Appending a stroke extends the batch of its own colour only, by the stroke's piece. */
  lemma BatchAppend(ps: seq<seq<Vec3>>, cs: seq<int>, pts: seq<Vec3>, color: int, col: int)
    requires |cs| == |ps|
    ensures Batch(ps + [pts], cs + [color], col) == Batch(ps, cs, col) + Piece(pts, color, col)
  {
    assert (ps + [pts])[..|ps|] == ps;
    assert (cs + [color])[..|cs|] == cs;
  }

  /**
   * Appending a stroke to the store and its piece to its colour's batch
   * keeps the batches equal to those of the store.
   */
  lemma BatchesAppend(ps: seq<seq<Vec3>>, cs: seq<int>, pts: seq<Vec3>, color: int, size: nat, bs: seq<seq<Vec3>>)
    requires |cs| == |ps| && 0 <= color < size && bs == Batches(ps, cs, size)
    ensures bs[color := bs[color] + Piece(pts, color, color)] == Batches(ps + [pts], cs + [color], size)
  {
    forall col | 0 <= col < size
      ensures bs[color := bs[color] + Piece(pts, color, color)][col] == Batch(ps + [pts], cs + [color], col)
    {
      BatchAppend(ps, cs, pts, color, col);
    }
  }

  /**
   * Removing a stroke leaves the batches of every other colour exactly as
   * they were.
   */
  lemma {:induction false} RemoveKeepsOtherBatches(ps: seq<seq<Vec3>>, cs: seq<int>, k: int, col: int)
    requires |cs| == |ps| && 0 <= k < |ps| && cs[k] != col
    ensures Batch(RemoveAt(ps, k), RemoveAt(cs, k), col) == Batch(ps, cs, col)
  {
    var n := |ps| - 1;
    assert Batch(ps, cs, col) == Batch(ps[..n], cs[..n], col) + Piece(ps[n], cs[n], col);
    if k == n {
      assert Piece(ps[n], cs[n], col) == [];
      assert RemoveAt(ps, k) == ps[..n];
      assert RemoveAt(cs, k) == cs[..n];
    } else {
      var ps', cs' := RemoveAt(ps[..n], k), RemoveAt(cs[..n], k);
      RemoveKeepsOtherBatches(ps[..n], cs[..n], k, col);
      RemoveAtBeforeLast(ps, k);
      RemoveAtBeforeLast(cs, k);
      BatchAppend(ps', cs', ps[n], cs[n], col);
    }
  }

  /**
   * A batch is empty exactly when no stroke of its colour has two or more
   * points, and every point it shows is the break point or a point of a
   * stroke of its colour.
   */
  lemma {:induction false} BatchShowsOwnColour(ps: seq<seq<Vec3>>, cs: seq<int>, col: int)
    requires |cs| == |ps|
    ensures Batch(ps, cs, col) == [] <==> forall i :: 0 <= i < |ps| && cs[i] == col ==> |ps[i]| < 2
    ensures forall x :: x in Batch(ps, cs, col) ==>
      x == LineBreak || exists i :: 0 <= i < |ps| && cs[i] == col && x in ps[i]
  {
    if ps != [] {
      var n := |ps| - 1;
      BatchShowsOwnColour(ps[..n], cs[..n], col);
      forall x | x in Batch(ps, cs, col)
        ensures x == LineBreak || exists i :: 0 <= i < |ps| && cs[i] == col && x in ps[i]
      {
        if x in Batch(ps[..n], cs[..n], col) && x != LineBreak {
          var i :| 0 <= i < n && cs[..n][i] == col && x in ps[..n][i];
          assert cs[i] == col && x in ps[i];
        }
      }
    }
  }
}
