/**
 * Preparation of the inversion inputs (main.py:18-91), in the order the
 * script runs it: the velocity column is derived from the displacement as
 * read; then the displacement is repaired in place; then the window is cut
 * out of the velocity column and its zeros are filled; then the aperture,
 * the unloading correction and the slices handed to the objective follow.
 */
module Pipeline {

  import opened Velocity
  import opened Repair
  import opened Window
  import opened Aperture
  import opened Objective

  /** First and last row label of the stable-sliding segment. */
  const SlidingFirst: nat := 388
  const SlidingLast: nat := 694

  /** Why the preparation stops: a lookup of a label that is not there, or a window without rows. */
  datatype Error = MissingLabel(key: int) | EmptyWindow

  datatype Outcome = Ok(inputs: InversionInputs) | Failed(error: Error)

  /** The velocity of the rows [first, last], computed from the displacement column as read. */
  function VelocityWindow(raw: seq<real>, first: nat, last: nat): (w: seq<real>)
    requires 1 <= first
    ensures |w| == RowCount(|raw|, first, last)
    ensures forall j :: 0 <= j < |w| ==> w[j] >= 0.0
    ensures forall j :: 0 <= j < |w| ==> (w[j] == 0.0 <==> raw[first + j] <= raw[first + j - 1])
    ensures forall j :: 0 <= j < |w| && raw[first + j] >= raw[first + j - 1] ==>
      w[j] == (raw[first + j] - raw[first + j - 1]) / TimeInterval
  {
    RowsFromOne(Velocities(raw, TimeInterval), first, last)
  }

  /** The columns of the table as read have one entry per row; the stiffness is non-zero. */
  predicate Table(raw: seq<real>, stress: seq<real>, normalDisp: seq<real>, normStiff: real)
  {
    |stress| == |raw| && |normalDisp| == |raw| && normStiff != 0.0
  }

  /** Index of the last window row, for a window that holds rows. */
  function LastRow(n: nat, first: nat, last: nat): nat
    requires RowCount(n, first, last) > 0
  {
    first + RowCount(n, first, last) - 1
  }

  /**
   * The whole preparation as a function of the columns as read: raw slip
   * displacement, normal stress and normal displacement, the normal
   * stiffness of the system, and the window [first, last].
   */
  function Preprocess(raw: seq<real>, stress: seq<real>, normalDisp: seq<real>, normStiff: real,
                      first: nat, last: nat): (r: Outcome)
    requires 1 <= first && Table(raw, stress, normalDisp, normStiff)
    ensures r.Ok? ==> RowCount(|raw|, first, last) > 0 && r.inputs == Inputs(raw, stress, normalDisp, normStiff, first, last)
  {
    var vlc := VelocityWindow(raw, first, last);
    match FillError(vlc, first)
    case Some(key) => Failed(MissingLabel(key))
    case None =>
      if |raw| == 0 then Failed(MissingLabel(0))
      else if |vlc| == 0 then Failed(EmptyWindow)
      else Ok(Inputs(raw, stress, normalDisp, normStiff, first, last))
  }

  /** The experimental aperture over the window rows (unloading correction added). */
  function WindowAperture(stress: seq<real>, normalDisp: seq<real>, normStiff: real, first: nat, last: nat)
    : (b: seq<real>)
    requires |normalDisp| == |stress| && normStiff != 0.0 && RowCount(|stress|, first, last) > 0
    ensures |b| == RowCount(|stress|, first, last)
  {
    var aperture := ApertureColumn(InitialAperture(stress[0], normStiff), normalDisp);
    ExperimentalAperture(Rows(aperture, first, last), Rows(stress, first, last), normStiff)
  }

  /** The repaired slip displacement over the window rows. */
  function WindowDisplacement(raw: seq<real>, first: nat, last: nat): (u: seq<real>)
    ensures |u| == RowCount(|raw|, first, last)
  {
    Rows(RunningMax(raw), first, last)
  }

  /** The slip velocity over the window rows after the zero fill. */
  function WindowVelocity(raw: seq<real>, first: nat, last: nat): (v: seq<real>)
    requires 1 <= first
    ensures |v| == RowCount(|raw|, first, last)
  {
    var vlc := VelocityWindow(raw, first, last);
    FillPrefix(vlc, |vlc|)
  }

  /** The inputs handed to the objective, for a window that holds rows. */
  function Inputs(raw: seq<real>, stress: seq<real>, normalDisp: seq<real>, normStiff: real,
                  first: nat, last: nat): (inp: InversionInputs)
    requires 1 <= first && Table(raw, stress, normalDisp, normStiff)
    requires RowCount(|raw|, first, last) > 0
    ensures |inp.bExp| == RowCount(|raw|, first, last) && inp.b0 == inp.bExp[0]
    ensures |inp.uEnd| == |inp.bExp| - 1 && |inp.v| == |inp.bExp| - 1
  {
    var bExp := WindowAperture(stress, normalDisp, normStiff, first, last);
    var u := WindowDisplacement(raw, first, last);
    InversionInputs(bExp[0], u[0], u[1..], WindowVelocity(raw, first, last)[1..], bExp)
  }

  /**
   * The script's preparation over the displacement column, which it repairs
   * in place; the other columns are only read.
   */
  method Prepare(slip: array<real>, stress: seq<real>, normalDisp: seq<real>, normStiff: real,
                 first: nat, last: nat) returns (r: Outcome)
    requires 1 <= first && Table(slip[..], stress, normalDisp, normStiff)
    modifies slip
    ensures slip[..] == RunningMax(old(slip[..]))
    ensures r == Preprocess(old(slip[..]), stress, normalDisp, normStiff, first, last)
  {
    var vel := Velocities(slip[..], TimeInterval);
    RepairDisplacement(slip);
    var vlc := RowsFromOne(vel, first, last);
    var buf := new real[|vlc|](j requires 0 <= j < |vlc| => vlc[j]);
    assert buf[..] == vlc;
    var missing := FillZeroVelocities(buf, first);
    if missing.Some? {
      return Failed(MissingLabel(missing.value));
    }
    assert buf[..] == FillPrefix(vlc, |vlc|);
    if slip.Length == 0 {
      return Failed(MissingLabel(0));
    }
    if buf.Length == 0 {
      return Failed(EmptyWindow);
    }
    var bExp := WindowAperture(stress, normalDisp, normStiff, first, last);
    var uWin := Rows(slip[..], first, last);
    r := Ok(InversionInputs(bExp[0], uWin[0], uWin[1..], buf[1..], bExp));
  }

  /**
   * When the window holds rows, the preparation fails exactly when the
   * displacement did not advance at the first window row (the fill reads the
   * label before the window) or, that failing, at the last one (it reads the
   * label after the window); otherwise it yields Inputs. A window without
   * rows fails on the empty table or on the empty selection.
   */
  lemma PreprocessOutcome(raw: seq<real>, stress: seq<real>, normalDisp: seq<real>, normStiff: real,
                          first: nat, last: nat)
    requires 1 <= first && Table(raw, stress, normalDisp, normStiff)
    ensures var r := Preprocess(raw, stress, normalDisp, normStiff, first, last);
      var n := RowCount(|raw|, first, last);
      (n == 0 ==> r == if |raw| == 0 then Failed(MissingLabel(0)) else Failed(EmptyWindow)) &&
      (n > 0 ==>
        var l := LastRow(|raw|, first, last);
        l < |raw| &&
        (r == Failed(MissingLabel(first - 1)) <==> raw[first] <= raw[first - 1]) &&
        (r == Failed(MissingLabel(l + 1)) <==> raw[first] > raw[first - 1] && raw[l] <= raw[l - 1]) &&
        (r.Ok? <==> raw[first] > raw[first - 1] && raw[l] > raw[l - 1]) &&
        (r.Ok? ==> r.inputs == Inputs(raw, stress, normalDisp, normStiff, first, last)))
  {
    var r := Preprocess(raw, stress, normalDisp, normStiff, first, last);
    var vlc := VelocityWindow(raw, first, last);
    var n := RowCount(|raw|, first, last);
    if n > 0 {
      VelocityAtEdges(raw, first, last);
      var l := LastRow(|raw|, first, last);
      if raw[first] <= raw[first - 1] {
        assert FillError(vlc, first) == Some(first - 1);
      } else if raw[l] <= raw[l - 1] {
        assert FillError(vlc, first) == Some(first + n);
      } else {
        assert FillError(vlc, first) == None;
        assert r == Ok(Inputs(raw, stress, normalDisp, normStiff, first, last));
      }
    }
  }

  /** The windowed velocity is zero at an edge row exactly when the raw displacement did not advance there. */
  lemma VelocityAtEdges(raw: seq<real>, first: nat, last: nat)
    requires 1 <= first && RowCount(|raw|, first, last) > 0
    ensures var vlc := VelocityWindow(raw, first, last);
      var l := LastRow(|raw|, first, last);
      l < |raw| && |vlc| == l - first + 1 &&
      (vlc[0] == 0.0 <==> raw[first] <= raw[first - 1]) &&
      (vlc[|vlc| - 1] == 0.0 <==> raw[l] <= raw[l - 1])
  {
    var vlc := VelocityWindow(raw, first, last);
    var l := LastRow(|raw|, first, last);
    var j := |vlc| - 1;
    assert first + j == l && first + j - 1 == l - 1;
    assert vlc[j] == 0.0 <==> raw[first + j] <= raw[first + j - 1];
  }

  /**
   * The sequences the objective compares line up: the experimental aperture
   * holds one sample per window row, and the displacements, the velocities
   * and the compared apertures each hold one fewer. For the stable-sliding
   * segment of a table that reaches past its last row, that is 307 samples.
   */
  lemma InputsAligned(raw: seq<real>, stress: seq<real>, normalDisp: seq<real>, normStiff: real,
                      first: nat, last: nat)
    requires 1 <= first && Table(raw, stress, normalDisp, normStiff)
    requires RowCount(|raw|, first, last) > 0
    ensures var inp := Inputs(raw, stress, normalDisp, normStiff, first, last);
      var n := RowCount(|raw|, first, last);
      |inp.bExp| == n && |inp.uEnd| == n - 1 && |inp.v| == n - 1 && |Rest(inp.bExp)| == n - 1 &&
      inp.b0 == inp.bExp[0] &&
      (last < |raw| ==> n == last - first + 1) &&
      (first == SlidingFirst && last == SlidingLast && SlidingLast < |raw| ==> n == 307)
  {
  }

  /**
   * The unloading correction vanishes at the first window row, so the
   * baseline aperture is the aperture measured there; a later experimental
   * aperture differs from it by the closing due to normal displacement and
   * the stress change over the stiffness, whatever the initial aperture.
   */
  lemma WindowApertureBaseline(stress: seq<real>, normalDisp: seq<real>, normStiff: real, first: nat, last: nat)
    requires |normalDisp| == |stress| && normStiff != 0.0 && RowCount(|stress|, first, last) > 0
    ensures var b := WindowAperture(stress, normalDisp, normStiff, first, last);
      b[0] == ApertureColumn(InitialAperture(stress[0], normStiff), normalDisp)[first] &&
      forall j :: 0 <= j < |b| ==>
        first + j < |stress| &&
        b[j] - b[0] == (normalDisp[first] - normalDisp[first + j]) + (stress[first + j] - stress[first]) / normStiff
  {
    var aperture := ApertureColumn(InitialAperture(stress[0], normStiff), normalDisp);
    var apWin := Rows(aperture, first, last);
    var stWin := Rows(stress, first, last);
    var b := ExperimentalAperture(apWin, stWin, normStiff);
    assert b == WindowAperture(stress, normalDisp, normStiff, first, last);
    forall j | 0 <= j < |b|
      ensures first + j < |stress|
      ensures b[j] - b[0] == (normalDisp[first] - normalDisp[first + j]) + (stress[first + j] - stress[first]) / normStiff
    {
      assert apWin[j] == aperture[first + j] && apWin[0] == aperture[first];
      ApertureChange(InitialAperture(stress[0], normStiff), 0.0, normalDisp, first + j, first);
      assert stWin[j] == stress[first + j] && stWin[0] == stress[first];
    }
  }

  /**
   * The displacements handed to the objective come from the repaired column:
   * the one at window position j is the largest displacement read up to its
   * row, so they never decrease along the window.
   */
  lemma WindowDisplacementRepaired(raw: seq<real>, first: nat, last: nat)
    ensures var u := WindowDisplacement(raw, first, last);
      NonDecreasing(u) &&
      forall j :: 0 <= j < |u| ==> first + j < |raw| && u[j] == PrefixMax(raw, first + j)
  {
    var r := RunningMax(raw);
    var u := WindowDisplacement(raw, first, last);
    RunningMaxNonDecreasing(raw);
    forall i, j | 0 <= i <= j < |u| ensures u[i] <= u[j] {
      assert u[i] == r[first + i] && u[j] == r[first + j];
    }
  }

  /**
   * When the displacement advanced at both window edges (so that the fill
   * succeeds), every filled velocity is positive: no zero is left behind.
   */
  lemma WindowVelocityPositive(raw: seq<real>, first: nat, last: nat)
    requires 1 <= first && RowCount(|raw|, first, last) > 0
    requires raw[first] > raw[first - 1]
    requires raw[LastRow(|raw|, first, last)] > raw[LastRow(|raw|, first, last) - 1]
    ensures forall j :: 0 <= j < |WindowVelocity(raw, first, last)| ==> WindowVelocity(raw, first, last)[j] > 0.0
  {
    var vlc := VelocityWindow(raw, first, last);
    assert vlc[0] != 0.0 && vlc[|vlc| - 1] != 0.0;
    FillPositive(vlc, |vlc|);
  }

  /**
   * A window row whose raw displacement advanced keeps its velocity through
   * the fill: the difference of the displacement as read, not as repaired,
   * over the interval.
   */
  lemma WindowVelocityFromRaw(raw: seq<real>, first: nat, last: nat, j: nat)
    requires 1 <= first && j < RowCount(|raw|, first, last)
    requires raw[first + j] > raw[first + j - 1]
    ensures WindowVelocity(raw, first, last)[j] == (raw[first + j] - raw[first + j - 1]) / TimeInterval
  {
    var vlc := VelocityWindow(raw, first, last);
    FillAt(vlc, |vlc|, j);
  }
}
