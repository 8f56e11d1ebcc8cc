/**
 * The finished-stroke store: three parallel lists holding, for each stroke,
 * its points, its colour index and its bounding box.
 */
module StrokeStore {
  import opened Geometry
  import opened Lists

  datatype Store = Store(positions: seq<seq<Vec3>>, colors: seq<int>, bounds: seq<Bounds>)

  const EmptyStore := Store([], [], [])

  /** The three lists have one entry per stroke. */
  predicate Aligned(s: Store)
  {
    |s.colors| == |s.positions| && |s.bounds| == |s.positions|
  }

  /**
   * A well-formed store for a palette of the given size: aligned lists, every
   * stroke of at least two points with its box the bounds of its points, and
   * every colour a palette index.
   */
  ghost predicate StoreValid(s: Store, size: int)
  {
    && Aligned(s)
    && forall i :: 0 <= i < |s.positions| ==>
         && |s.positions[i]| >= 2
         && s.bounds[i] == BoundsOf(s.positions[i])
         && 0 <= s.colors[i] < size
  }

  /** The store with one more stroke at the end, its box computed from its points. */
  function AddStroke(s: Store, pts: seq<Vec3>, col: int): (t: Store)
    requires Aligned(s) && |pts| >= 2
    ensures Aligned(t) && |t.positions| == |s.positions| + 1
    ensures forall size :: StoreValid(s, size) && 0 <= col < size ==> StoreValid(t, size)
  {
    Store(s.positions + [pts], s.colors + [col], s.bounds + [BoundsOf(pts)])
  }

  /** The store without stroke k; the strokes after it move down by one. */
  function RemoveStroke(s: Store, k: int): (t: Store)
    requires Aligned(s) && 0 <= k < |s.positions|
    ensures Aligned(t) && |t.positions| == |s.positions| - 1
    ensures forall size :: StoreValid(s, size) ==> StoreValid(t, size)
  {
    Store(RemoveAt(s.positions, k), RemoveAt(s.colors, k), RemoveAt(s.bounds, k))
  }

  /** Indices, from i on, of the strokes with at least two points, in order. */
  function KeptFrom(ps: seq<seq<Vec3>>, i: int): (idx: seq<int>)
    requires 0 <= i <= |ps|
    ensures forall k :: 0 <= k < |idx| ==> i <= idx[k] < |ps|
    decreases |ps| - i
  {
    if i == |ps| then []
    else (if |ps[i]| >= 2 then [i] else []) + KeptFrom(ps, i + 1)
  }

  /**
   * The kept indices are strictly increasing, name only strokes of two or
   * more points, and name every such stroke.
   */
  lemma {:induction false} KeptFromSelectsLongStrokes(ps: seq<seq<Vec3>>, i: int)
    requires 0 <= i <= |ps|
    ensures IncreasingIndices(KeptFrom(ps, i), |ps|)
    ensures forall k :: 0 <= k < |KeptFrom(ps, i)| ==> |ps[KeptFrom(ps, i)[k]]| >= 2
    ensures forall j :: i <= j < |ps| ==> (|ps[j]| >= 2 <==> j in KeptFrom(ps, i))
    decreases |ps| - i
  {
    if i < |ps| {
      KeptFromSelectsLongStrokes(ps, i + 1);
    }
  }

  /** Indices of the strokes that survive compaction. */
  function Kept(ps: seq<seq<Vec3>>): seq<int>
  {
    KeptFrom(ps, 0)
  }

  /**
   * A step of the backward compaction loop over a list parallel to ps, with
   * index i + 1 onwards already compacted: removing entry i of a short
   * stroke compacts from i onwards.
   */
  lemma CompactDropStep<T>(xs: seq<T>, ps: seq<seq<Vec3>>, i: int)
    requires |xs| == |ps| && 0 <= i < |ps| && |ps[i]| < 2
    ensures RemoveAt(xs[..i + 1] + Select(xs, KeptFrom(ps, i + 1)), i) == xs[..i] + Select(xs, KeptFrom(ps, i))
  {
    var rest := Select(xs, KeptFrom(ps, i + 1));
    var cur := xs[..i + 1] + rest;
    assert KeptFrom(ps, i) == KeptFrom(ps, i + 1);
    assert cur[..i] == xs[..i];
    assert cur[i + 1..] == rest;
  }

  lemma SelectKeptAt<T>(xs: seq<T>, ps: seq<seq<Vec3>>, i: int)
    requires |xs| == |ps| && 0 <= i < |ps| && |ps[i]| >= 2
    ensures Select(xs, KeptFrom(ps, i)) == [xs[i]] + Select(xs, KeptFrom(ps, i + 1))
  {
    assert KeptFrom(ps, i) == [i] + KeptFrom(ps, i + 1);
    SelectCons(xs, i, KeptFrom(ps, i + 1));
  }

  /** The same step when stroke i is kept: the list already is compact from i onwards. */
  lemma CompactKeepStep<T>(xs: seq<T>, ps: seq<seq<Vec3>>, i: int)
    requires |xs| == |ps| && 0 <= i < |ps| && |ps[i]| >= 2
    ensures xs[..i + 1] + Select(xs, KeptFrom(ps, i + 1)) == xs[..i] + Select(xs, KeptFrom(ps, i))
  {
    SelectKeptAt(xs, ps, i);
    SplitLast(xs, i, Select(xs, KeptFrom(ps, i + 1)));
  }

  /** Drop every stroke with fewer than two points from all three lists. */
  function Compact(s: Store): Store
    requires Aligned(s)
  {
    var idx := Kept(s.positions);
    Store(Select(s.positions, idx), Select(s.colors, idx), Select(s.bounds, idx))
  }

  /**
   * Compaction keeps exactly the strokes of two or more points, in their
   * order, with the same selection applied to every list, so a store whose
   * remaining strokes carry their own bounds and palette colours becomes
   * well formed.
   */
  lemma CompactKeepsExactlyLongStrokes(s: Store, size: int)
    requires Aligned(s)
    requires forall i :: 0 <= i < |s.positions| && |s.positions[i]| >= 2 ==>
      s.bounds[i] == BoundsOf(s.positions[i]) && 0 <= s.colors[i] < size
    ensures forall j :: 0 <= j < |s.positions| ==> (|s.positions[j]| >= 2 <==> j in Kept(s.positions))
    ensures IncreasingIndices(Kept(s.positions), |s.positions|)
    ensures StoreValid(Compact(s), size)
  {
    var idx := Kept(s.positions);
    KeptFromSelectsLongStrokes(s.positions, 0);
    SelectAt(s.positions, idx);
    SelectAt(s.colors, idx);
    SelectAt(s.bounds, idx);
    var t := Compact(s);
    forall k | 0 <= k < |t.positions|
      ensures |t.positions[k]| >= 2 && t.bounds[k] == BoundsOf(t.positions[k]) && 0 <= t.colors[k] < size
    {
      assert t.positions[k] == s.positions[idx[k]];
    }
  }

  /** Compacting a store whose strokes all have two or more points changes nothing. */
  lemma {:induction false} CompactIdentity(ps: seq<seq<Vec3>>, i: int)
    requires 0 <= i <= |ps|
    requires forall j :: 0 <= j < |ps| ==> |ps[j]| >= 2
    ensures KeptFrom(ps, i) == seq(|ps| - i, k => i + k)
    decreases |ps| - i
  {
    if i < |ps| {
      CompactIdentity(ps, i + 1);
    }
  }
}
