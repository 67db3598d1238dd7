/**
 * The query engine's `round(places)`, modelled on exact reals as rounding to the
 * nearest multiple of 10^-places with an exact half rounded away from zero. The
 * pipelines round to four places (amounts and per-unit values) and to two
 * places (percentiles); the lemmas below are stated for those two precisions.
 */
module Rounding {

  /** 10^places. */
  function Scale(places: nat): (s: real)
    ensures s >= 1.0
  {
    if places == 0 then 1.0 else 10.0 * Scale(places - 1)
  }

  /** `y` is a whole number. */
  predicate Integral(y: real) {
    y.Floor as real == y
  }

  /** `x` has at most `places` decimal places. */
  predicate IsRounded(x: real, places: nat) {
    Integral(x * Scale(places))
  }

  /** `r` is within half a unit in the last of `places` decimal places of `x`. */
  predicate WithinHalfUnit(r: real, x: real, places: nat) {
    -0.5 <= (r - x) * Scale(places) <= 0.5
  }

  /** Rounds a non-negative value half up. */
  function RoundUp(x: real, places: nat): (r: real)
    requires x >= 0.0
    ensures r >= 0.0
    ensures IsRounded(r, places)
    ensures WithinHalfUnit(r, x, places)
  {
    var k := (x * Scale(places) + 0.5).Floor;
    GridPoint(k, places);
    NearestGridPoint(x, places);
    k as real / Scale(places)
  }

  /** A whole number of units in the last place has at most `places` decimals. */
  lemma GridPoint(k: int, places: nat)
    ensures IsRounded(k as real / Scale(places), places)
  {
    var s := Scale(places);
    assert (k as real / s) * s == k as real;
    FloorUnique(k as real, k);
  }

  /** Adding half a unit and taking the floor lands within half a unit. */
  lemma NearestGridPoint(x: real, places: nat)
    ensures WithinHalfUnit((x * Scale(places) + 0.5).Floor as real / Scale(places), x, places)
  {
    var s := Scale(places);
    var k := (x * s + 0.5).Floor;
    assert (k as real / s - x) * s == k as real - x * s;
  }

  /** Rounds to `places` decimal places, a half away from zero. */
  function Round(x: real, places: nat): real {
    if x >= 0.0 then RoundUp(x, places) else -RoundUp(-x, places)
  }

  /**
   * The rounding is a nearest grid point: it has at most `places` decimals
   * and is within half a unit in the last place of `x`.
   */
  lemma RoundIsNearest(x: real, places: nat)
    ensures IsRounded(Round(x, places), places)
    ensures WithinHalfUnit(Round(x, places), x, places)
  {
    if x < 0.0 {
      var u := RoundUp(-x, places);
      NegatedRounded(u, places);
      NegatedWithin(u, -x, places);
    }
  }

  lemma NegatedRounded(u: real, places: nat)
    requires IsRounded(u, places)
    ensures IsRounded(-u, places)
  {
    assert (-u) * Scale(places) == -(u * Scale(places));
    NegatedIntegral(u * Scale(places));
  }

  lemma NegatedIntegral(y: real)
    requires Integral(y)
    ensures Integral(-y)
  {
    FloorUnique(-y, -y.Floor);
  }

  lemma NegatedWithin(u: real, x: real, places: nat)
    requires WithinHalfUnit(u, x, places)
    ensures WithinHalfUnit(-u, -x, places)
  {
    var s := Scale(places);
    assert (-u - (-x)) * s == -((u - x) * s);
  }

  /** The floor of `y` is the integer `k` with k <= y < k + 1. */
  lemma FloorUnique(y: real, k: int)
    requires k as real <= y < k as real + 1.0
    ensures y.Floor == k
  {
    var f := y.Floor;
    assert (f - k) as real < 1.0 && (k - f) as real < 1.0;
  }

  lemma FloorMonotone(a: real, b: real)
    requires a <= b
    ensures a.Floor <= b.Floor
  {
    var fa, fb := a.Floor, b.Floor;
    assert (fa - fb) as real < 1.0;
  }

  lemma OnFourPlaceGrid(x: real)
    requires IsRounded(x, 4)
    ensures Integral(x * 10000.0)
  {
    assert Scale(4) == 10000.0;
  }

  /** A value that already has four decimal places is left as it is. */
  lemma Round4Rounded(x: real)
    requires IsRounded(x, 4)
    ensures Round(x, 4) == x
  {
    OnFourPlaceGrid(x);
    var k := (x * 10000.0).Floor;
    if x >= 0.0 {
      FloorUnique(x * 10000.0 + 0.5, k);
    } else {
      FloorUnique((-x) * 10000.0 + 0.5, -k);
    }
  }

  /** The difference of two four-place values has four places. */
  lemma Rounded4Sub(x: real, y: real)
    requires IsRounded(x, 4) && IsRounded(y, 4)
    ensures IsRounded(x - y, 4)
  {
    OnFourPlaceGrid(x);
    OnFourPlaceGrid(y);
    var a, b := (x * 10000.0).Floor, (y * 10000.0).Floor;
    assert (x - y) * 10000.0 == (a - b) as real;
    FloorUnique((a - b) as real, a - b);
  }

  /** Rounding to two places never reverses the order of two values. */
  lemma Round2Monotone(x: real, y: real)
    requires x <= y
    ensures Round(x, 2) <= Round(y, 2)
  {
    assert Scale(2) == 100.0;
    if 0.0 <= x {
      FloorMonotone(x * 100.0 + 0.5, y * 100.0 + 0.5);
    } else if y < 0.0 {
      FloorMonotone((-y) * 100.0 + 0.5, (-x) * 100.0 + 0.5);
    }
  }

  /** 0.01 and 1 are their own two-place roundings. */
  lemma Round2Fixes()
    ensures Round(0.01, 2) == 0.01
    ensures Round(1.0, 2) == 1.0
  {
    assert Scale(2) == 100.0;
    FloorUnique(0.01 * 100.0 + 0.5, 1);
    FloorUnique(1.0 * 100.0 + 0.5, 100);
  }
}
