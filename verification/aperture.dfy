/**
 * Aperture of the fracture during shear (main.py:64-81): the aperture at the
 * onset of the test, the aperture column derived from the normal
 * displacement, and the experimental aperture over the window with the
 * aperture change caused by normal-stress unloading added back.
 */
module Aperture {

  /** Maximum fracture aperture, taken as the RMS asperity height, in mm. */
  const MaxAperture: real := 1.340498

  /**
   * Aperture at the onset of the test: the maximum aperture closed by the
   * initial normal stress acting on the normal stiffness of the system.
   */
  function InitialAperture(sigma0: real, normStiff: real): (b: real)
    requires normStiff != 0.0
    ensures sigma0 == 0.0 ==> b == MaxAperture
    ensures normStiff > 0.0 ==> (b < MaxAperture <==> sigma0 > 0.0)
    ensures (MaxAperture - b) * normStiff == sigma0
  {
    MaxAperture - sigma0 / normStiff
  }

  /**
   * The aperture column: equal to the initial aperture at row 0, and closed
   * at every later row by exactly the growth of the normal displacement since
   * row 0.
   */
  function ApertureColumn(bIni: real, normalDisp: seq<real>): (b: seq<real>)
    requires |normalDisp| > 0
    ensures |b| == |normalDisp| && b[0] == bIni
    ensures forall k :: 0 <= k < |b| ==> bIni - b[k] == normalDisp[k] - normalDisp[0]
  {
    seq(|normalDisp|, k requires 0 <= k < |normalDisp| => bIni - (normalDisp[k] - normalDisp[0]))
  }

  /**
   * Between any two rows the aperture closes by exactly as much as the normal
   * displacement grows, whatever the initial aperture.
   */
  lemma ApertureChange(bIni: real, bIni': real, normalDisp: seq<real>, k: nat, l: nat)
    requires k < |normalDisp| && l < |normalDisp|
    ensures ApertureColumn(bIni, normalDisp)[k] - ApertureColumn(bIni, normalDisp)[l] == normalDisp[l] - normalDisp[k]
    ensures ApertureColumn(bIni, normalDisp)[k] - ApertureColumn(bIni', normalDisp)[k] == bIni - bIni'
  {
  }

  /**
   * The aperture change caused by unloading over a window of normal stress:
   * zero at the first row of the window, and proportional to the stress
   * change since that row.
   */
  function UnloadCorrection(stress: seq<real>, normStiff: real): (d: seq<real>)
    requires |stress| > 0 && normStiff != 0.0
    ensures |d| == |stress| && d[0] == 0.0
    ensures forall j :: 0 <= j < |d| ==> d[j] * normStiff == stress[j] - stress[0]
    ensures normStiff > 0.0 ==> forall j :: 0 <= j < |d| ==> (d[j] < 0.0 <==> stress[j] < stress[0])
  {
    seq(|stress|, j requires 0 <= j < |stress| => (stress[j] - stress[0]) / normStiff)
  }

  /**
   * The experimental aperture over a window: the measured aperture with the
   * unloading correction added. It equals the measured aperture at the first
   * row, and every later change is the measured change plus the stress change
   * over the stiffness.
   */
  function ExperimentalAperture(aperture: seq<real>, stress: seq<real>, normStiff: real): (b: seq<real>)
    requires |aperture| == |stress| > 0 && normStiff != 0.0
    ensures |b| == |aperture| && b[0] == aperture[0]
    ensures forall j :: 0 <= j < |b| ==>
      b[j] - b[0] == (aperture[j] - aperture[0]) + (stress[j] - stress[0]) / normStiff
  {
    var d := UnloadCorrection(stress, normStiff);
    seq(|aperture|, j requires 0 <= j < |aperture| => aperture[j] + d[j])
  }
}
