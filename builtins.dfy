/**
 * The two Python built-ins whose exact behaviour the core relies on:
 * list slicing `s[i:j]` (with its clamping of out-of-range and negative
 * bounds) and `round(x, digits)` (round half to even), the latter stated on
 * exact reals.
 */
module PyBuiltins {

  /** The position a slice bound `b` denotes in a list of length `n`. */
  function SliceBound(b: int, n: nat): (k: nat)
    ensures k <= n
    ensures 0 <= b <= n ==> k == b
    ensures b > n ==> k == n
    ensures b < 0 ==> k == if b + n < 0 then 0 else b + n
  {
    if b < 0 then (if b + n < 0 then 0 else b + n)
    else if b > n then n
    else b
  }

  /** Python's `s[i:j]`. */
  function Slice<T>(s: seq<T>, i: int, j: int): (r: seq<T>)
    ensures SliceBound(i, |s|) < SliceBound(j, |s|) ==> r == s[SliceBound(i, |s|)..SliceBound(j, |s|)]
    ensures SliceBound(j, |s|) <= SliceBound(i, |s|) ==> r == []
  {
    var lo, hi := SliceBound(i, |s|), SliceBound(j, |s|);
    if lo < hi then s[lo..hi] else []
  }

  /** With non-negative bounds a slice is the clamped sub-sequence, of the clamped length. */
  lemma SliceNonNegative<T>(s: seq<T>, i: nat, j: nat)
    requires i <= j
    ensures var lo := if i < |s| then i else |s|;
            var hi := if j < |s| then j else |s|;
            Slice(s, i, j) == s[lo..hi] && |Slice(s, i, j)| == hi - lo
  {
  }

  /** Slicing the tail of a list is slicing the list one place further on. */
  lemma SliceTail<T>(s: seq<T>, i: nat, j: nat)
    requires s != [] && i <= j
    ensures Slice(s[1..], i, j) == Slice(s, i + 1, j + 1)
  {
    SliceNonNegative(s[1..], i, j);
    SliceNonNegative(s, i + 1, j + 1);
  }

  /** The integer nearest to `s`; a value exactly half-way goes to the even neighbour. */
  function RoundHalfEven(s: real): (n: int)
    ensures -1.0 / 2.0 <= n as real - s <= 1.0 / 2.0
    ensures n as real - s == 1.0 / 2.0 || n as real - s == -1.0 / 2.0 ==> n % 2 == 0
  {
    var f := s.Floor;
    var frac := s - f as real;
    if frac > 1.0 / 2.0 then f + 1
    else if frac < 1.0 / 2.0 then f
    else if f % 2 == 0 then f
    else f + 1
  }

  lemma RoundHalfEvenMonotone(s: real, t: real)
    requires s <= t
    ensures RoundHalfEven(s) <= RoundHalfEven(t)
  {
  }

  /*
   * Python's `round(x, 3)` and `round(x, 2)`, stated on exact reals: the
   * multiple of 10^-3 (10^-2) nearest to x, halves to even. Binary floating
   * point is not modelled. Each is written with its own literal scale, which
   * keeps the arithmetic linear for the verifier, and moves its argument by at
   * most half a unit in the last kept place.
   */

  function Round3(x: real): (r: real)
    ensures x - 0.0005 <= r <= x + 0.0005
  {
    RoundHalfEven(x * 1000.0) as real / 1000.0
  }

  function Round2(x: real): (r: real)
    ensures x - 0.005 <= r <= x + 0.005
  {
    RoundHalfEven(x * 100.0) as real / 100.0
  }

  /** Rounding never reverses the order of two values, so a sorted column stays sorted. */
  lemma Round3Monotone(x: real, y: real)
    requires x <= y
    ensures Round3(x) <= Round3(y)
  {
    RoundHalfEvenMonotone(x * 1000.0, y * 1000.0);
  }

  lemma Round2Monotone(x: real, y: real)
    requires x <= y
    ensures Round2(x) <= Round2(y)
  {
    RoundHalfEvenMonotone(x * 100.0, y * 100.0);
  }

  /** A value that already has at most three (two) decimals is left unchanged. */
  lemma Round3Exact(n: int)
    ensures Round3(n as real / 1000.0) == n as real / 1000.0
  {
    assert (n as real / 1000.0) * 1000.0 == n as real;
  }

  lemma Round2Exact(n: int)
    ensures Round2(n as real / 100.0) == n as real / 100.0
  {
    assert (n as real / 100.0) * 100.0 == n as real;
  }
}
