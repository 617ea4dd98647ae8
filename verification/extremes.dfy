/** Running extremes as the scanners keep them: a variable that starts at a
    sentinel and is replaced by every value beyond it. */
module Extremes {

  /** One step of a running maximum: `if (v < x) v = x`. */
  function Raise(v: int, x: int): int {
    if v < x then x else v
  }

  /** One step of a running minimum: `if (v > x) v = x`. */
  function Lower(v: int, x: int): int {
    if v > x then x else v
  }

  /** The running maximum of a run of values, from a starting value. */
  function Max(xs: seq<int>, start: int): (m: int)
    ensures start <= m
    ensures forall k :: 0 <= k < |xs| ==> xs[k] <= m
    ensures m == start || m in xs
    decreases |xs|
  {
    if |xs| == 0 then start
    else
      var n := |xs| - 1;
      var before := Max(xs[..n], start);
      assert forall k :: 0 <= k < n ==> xs[..n][k] == xs[k];
      Raise(before, xs[n])
  }

  /** The running minimum of a run of values, from a starting value. */
  function Min(xs: seq<int>, start: int): (m: int)
    ensures m <= start
    ensures forall k :: 0 <= k < |xs| ==> m <= xs[k]
    ensures m == start || m in xs
    decreases |xs|
  {
    if |xs| == 0 then start
    else
      var n := |xs| - 1;
      var before := Min(xs[..n], start);
      assert forall k :: 0 <= k < n ==> xs[..n][k] == xs[k];
      Lower(before, xs[n])
  }

  /** One more value moves the maximum only when it is greater. */
  lemma MaxAppend(xs: seq<int>, x: int, start: int)
    ensures Max(xs + [x], start) == Raise(Max(xs, start), x)
  {
    assert (xs + [x])[..|xs|] == xs;
  }

  /** One more value moves the minimum only when it is smaller. */
  lemma MinAppend(xs: seq<int>, x: int, start: int)
    ensures Min(xs + [x], start) == Lower(Min(xs, start), x)
  {
    assert (xs + [x])[..|xs|] == xs;
  }

  /** Over a non-empty run of values no further out than the sentinels, the
      extremes are values of the run and the minimum is at most the
      maximum. */
  lemma NonEmptyRange(xs: seq<int>, low: int, high: int)
    requires |xs| > 0
    requires forall k :: 0 <= k < |xs| ==> high <= xs[k] <= low
    ensures Max(xs, high) in xs && Min(xs, low) in xs
    ensures Min(xs, low) <= Max(xs, high)
  {
    assert Max(xs, high) >= xs[0] && Min(xs, low) <= xs[0];
    if Max(xs, high) == high {
      assert xs[0] == high;
    }
    if Min(xs, low) == low {
      assert xs[0] == low;
    }
  }
}
