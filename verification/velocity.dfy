/**
 * Slip velocity of the fracture (main.py:18-21): the first difference of the
 * raw slip-displacement column divided by the acquisition interval, with every
 * negative rate overwritten by 0. The column is computed from the displacement
 * as it was read, before the displacement repair of module Repair.
 */
module Velocity {

  /** The acquisition interval of the test rig. */
  const TimeInterval: real := 1.0

  /** A rate with a negative value replaced by 0: the least value that is both >= 0 and >= d. */
  function ClampNegative(d: real): (r: real)
    ensures r >= 0.0 && r >= d
    ensures r == d || r == 0.0
  {
    if d < 0.0 then 0.0 else d
  }

  /** Sign of a difference divided by a positive interval. */
  lemma QuotientSign(d: real, dt: real)
    requires dt > 0.0
    ensures d / dt > 0.0 <==> d > 0.0
    ensures d / dt < 0.0 <==> d < 0.0
  {
    assert (d / dt) * dt == d;
    if d > 0.0 { assert d / dt > 0.0; }
    if d < 0.0 { assert d / dt < 0.0; }
  }

  /** Velocity of row k >= 1 of a displacement column. */
  function RowVelocity(u: seq<real>, dt: real, k: nat): (r: real)
    requires dt > 0.0 && 1 <= k < |u|
    ensures r >= 0.0
    ensures r > 0.0 <==> u[k] > u[k - 1]
    ensures u[k] >= u[k - 1] ==> r == (u[k] - u[k - 1]) / dt
  {
    QuotientSign(u[k] - u[k - 1], dt);
    ClampNegative((u[k] - u[k - 1]) / dt)
  }

  /**
   * The velocity column. Row 0 has no predecessor, so its difference is
   * undefined and the column starts at row 1: row k sits at position k - 1.
   */
  function Velocities(u: seq<real>, dt: real): (v: seq<real>)
    requires dt > 0.0
    ensures |v| == if |u| == 0 then 0 else |u| - 1
    ensures forall j :: 0 <= j < |v| ==> v[j] >= 0.0
    ensures forall j :: 0 <= j < |v| ==> (v[j] > 0.0 <==> u[j + 1] > u[j])
    ensures forall j :: 0 <= j < |v| && u[j + 1] >= u[j] ==> v[j] == (u[j + 1] - u[j]) / dt
  {
    if |u| == 0 then []
    else seq(|u| - 1, j requires 0 <= j < |u| - 1 => RowVelocity(u, dt, j + 1))
  }
}
