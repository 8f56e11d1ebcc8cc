/**
 * Colour selection of the stroke engine. The palette has one colour (and one
 * main renderer) per index 0 .. size - 1; the selected index is either
 * clamped into range or advanced cyclically.
 */
module Palette {

  /**
   * Clamp a requested colour index into the palette, saturating at both ends
   * the way a clamp to [0, size - 1] does.
   */
  function ClampColor(value: int, size: int): (c: int)
    requires size >= 1
    ensures 0 <= c < size
    ensures 0 <= value < size ==> c == value
    ensures value < 0 ==> c == 0
    ensures value >= size ==> c == size - 1
  {
    if value < 0 then 0 else if value > size - 1 then size - 1 else value
  }

  /**
   * The next colour, wrapping from the last one back to the first. The
   * current index is never negative, so C#'s `%` (which truncates) and
   * Dafny's (which is Euclidean) agree here.
   */
  function NextColor(c: int, size: int): (n: int)
    requires 0 <= c < size
    ensures 0 <= n < size
    ensures n == 0 <==> c == size - 1
    ensures c < size - 1 ==> n == c + 1
  {
    (c + 1) % size
  }

  /** The colour reached after k presses of the colour button. */
  function Advance(c: int, size: int, k: nat): (n: int)
    requires 0 <= c < size
    ensures 0 <= n < size
  {
    if k == 0 then c else NextColor(Advance(c, size, k - 1), size)
  }

  /**
   * Within one round of the palette, advancing k times adds k and wraps past
   * the last colour exactly once.
   */
  lemma {:induction false} AdvanceWithinRound(c: int, size: int, k: nat)
    requires 0 <= c < size && k <= size
    ensures Advance(c, size, k) == if c + k < size then c + k else c + k - size
  {
    if k > 0 {
      AdvanceWithinRound(c, size, k - 1);
    }
  }

  /**
   * Pressing the colour button as many times as there are colours comes back
   * to the starting colour, and no smaller positive number of presses does.
   */
  lemma FullCycleReturns(c: int, size: int)
    requires 0 <= c < size
    ensures Advance(c, size, size) == c
    ensures forall k: nat :: 0 < k < size ==> Advance(c, size, k) != c
  {
    AdvanceWithinRound(c, size, size);
    forall k: nat | 0 < k < size ensures Advance(c, size, k) != c {
      AdvanceWithinRound(c, size, k);
    }
  }
}
