/**
 * The range restriction applied to every pose value before it is stored in
 * the packet (`clamp` and `clamp_` in contrib/npclient/npclient.c). Pose
 * values are modelled as integers.
 */
module Clamp {

  /** `NP_AXIS_MAX`: the largest magnitude of a packet pose value. */
  const AXIS_MAX: int := 16383

  /**
   * `clamp(x, xmin, xmax)`: the upper bound is tested first, so when the
   * bounds are crossed (`xmin > xmax`) a value above `xmax` gives `xmax`.
   */
  function Clamp(x: int, lo: int, hi: int): (r: int)
    ensures r == x || r == lo || r == hi
    ensures lo <= hi ==> lo <= r <= hi
    ensures lo <= x <= hi ==> r == x
    ensures x > hi ==> r == hi
    ensures x <= hi && x < lo ==> r == lo
  {
    if x > hi then hi
    else if x < lo then lo
    else x
  }

  /** `clamp_(x)`: `x` restricted to `[-AXIS_MAX, AXIS_MAX]`. */
  function ClampAxis(x: int): (r: int)
    ensures -AXIS_MAX <= r <= AXIS_MAX
    ensures -AXIS_MAX <= x <= AXIS_MAX ==> r == x
    ensures x > AXIS_MAX ==> r == AXIS_MAX
    ensures x < -AXIS_MAX ==> r == -AXIS_MAX
  {
    Clamp(x, -AXIS_MAX, AXIS_MAX)
  }

  /** Distance between two integers. */
  function Dist(x: int, y: int): nat
  {
    if x <= y then y - x else x - y
  }

  /**
   * The clamped value is the point of the axis range nearest to `x`: no
   * value in range is closer.
   */
  lemma ClampAxisNearest(x: int, y: int)
    requires -AXIS_MAX <= y <= AXIS_MAX
    ensures Dist(ClampAxis(x), x) <= Dist(y, x)
  {
  }

  /** Clamping preserves order. */
  lemma ClampAxisMonotone(x: int, y: int)
    requires x <= y
    ensures ClampAxis(x) <= ClampAxis(y)
  {
  }

  /** Clamping twice is clamping once. */
  lemma ClampAxisIdempotent(x: int)
    ensures ClampAxis(ClampAxis(x)) == ClampAxis(x)
  {
  }
}
