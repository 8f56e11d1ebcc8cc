/**
 * List operations the engine applies to its parallel stroke lists: removal at
 * an index, selection of a sub-list by increasing indices, and search for the
 * first occurrence of an element.
 */
module Lists {

  /** The list without its element at index k; later elements move down by one. */
  function RemoveAt<T>(s: seq<T>, k: int): (r: seq<T>)
    requires 0 <= k < |s|
    ensures |r| == |s| - 1
    ensures forall i :: 0 <= i < k ==> r[i] == s[i]
    ensures forall i :: k <= i < |r| ==> r[i] == s[i + 1]
  {
    s[..k] + s[k + 1..]
  }

  /** Removing before the last element commutes with taking the last element off. */
  lemma RemoveAtBeforeLast<T>(s: seq<T>, k: int)
    requires 0 <= k < |s| - 1
    ensures RemoveAt(s, k) == RemoveAt(s[..|s| - 1], k) + [s[|s| - 1]]
  {
    var n := |s| - 1;
    assert s[..n][..k] == s[..k];
    assert s[..n][k + 1..] == s[k + 1..n];
    assert s[k + 1..n] + [s[n]] == s[k + 1..];
  }

  /** Moving one element from the prefix to the front of the rest. */
  lemma SplitLast<T>(xs: seq<T>, i: int, rest: seq<T>)
    requires 0 <= i < |xs|
    ensures xs[..i + 1] + rest == xs[..i] + ([xs[i]] + rest)
  {
    assert xs[..i + 1] == xs[..i] + [xs[i]];
  }

  /** Indices that are strictly increasing and all inside a list of length n. */
  predicate IncreasingIndices(idx: seq<int>, n: int)
  {
    && (forall k :: 0 <= k < |idx| ==> 0 <= idx[k] < n)
    && (forall k, l :: 0 <= k < l < |idx| ==> idx[k] < idx[l])
  }

  /** The elements of xs at the given indices, in the order of the indices. */
  function Select<T>(xs: seq<T>, idx: seq<int>): (r: seq<T>)
    requires forall k :: 0 <= k < |idx| ==> 0 <= idx[k] < |xs|
    ensures |r| == |idx|
  {
    if idx == [] then [] else [xs[idx[0]]] + Select(xs, idx[1..])
  }

  /** Entry k of a selection is the element at the k-th index. */
  lemma {:induction false} SelectAt<T>(xs: seq<T>, idx: seq<int>)
    requires forall k :: 0 <= k < |idx| ==> 0 <= idx[k] < |xs|
    ensures forall k :: 0 <= k < |idx| ==> Select(xs, idx)[k] == xs[idx[k]]
  {
    if idx != [] {
      SelectAt(xs, idx[1..]);
    }
  }

  /** Selecting every index in order gives the whole list back. */
  lemma SelectAll<T>(xs: seq<T>)
    ensures Select(xs, seq(|xs|, k => k)) == xs
  {
    SelectAt(xs, seq(|xs|, k => k));
  }

  /** Selecting by an index list with one more index in front. */
  lemma SelectCons<T>(xs: seq<T>, i: int, idx: seq<int>)
    requires 0 <= i < |xs| && forall k :: 0 <= k < |idx| ==> 0 <= idx[k] < |xs|
    ensures Select(xs, [i] + idx) == [xs[i]] + Select(xs, idx)
  {
    assert ([i] + idx)[1..] == idx;
  }

  /**
   * The index of the first occurrence of x in s, or -1 when x does not occur.
   */
  function FirstIndexOf<T(==)>(s: seq<T>, x: T): (k: int)
    ensures -1 <= k < |s|
    ensures k == -1 <==> x !in s
    ensures k >= 0 ==> s[k] == x && x !in s[..k]
  {
    if s == [] then -1
    else if s[0] == x then 0
    else
      var k' := FirstIndexOf(s[1..], x);
      assert forall y :: y in s ==> y == s[0] || y in s[1..];
      if k' == -1 then -1
      else
        assert s[..k' + 1] == [s[0]] + s[1..][..k'];
        k' + 1
  }
}
