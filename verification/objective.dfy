/**
 * The objective of the inversion (main.py:94-123): for one candidate
 * parameter triple it computes the displacement-dependent aperture, one
 * dilation state per prefix of the window, the modelled aperture, and the
 * RMSE against the experimental aperture without its first sample.
 *
 * The physical model and the RMSE are not part of this model; they enter as
 * function values, so what is stated here is the shape of the computation:
 * which data each of them sees.
 */
module Objective {

  /** The acquisition interval handed to the dilation-state computation. */
  const DtAcq: real := 1.0

  /** One candidate: dilation factor, characteristic slip distance, dilation angle. */
  datatype Params = Params(dilFact: real, dc: real, dilAng: real)

  /**
   * The physical model and the error measure:
   *   slipAperture(b0, uEnd, u0Ini, dilAng)          displacement-dependent aperture
   *   dilPara(dilFact, uPrefix, vPrefix, dc, dtAcq)  dilation state after a prefix
   *   shearDil(bSlip, states)                        modelled aperture
   *   rmse(modelled, observed)                       root-mean-square error
   */
  datatype Physics<!State> = Physics(
    slipAperture: (real, seq<real>, real, real) -> seq<real>,
    dilPara: (real, seq<real>, seq<real>, real, real) -> State,
    shearDil: (seq<real>, seq<State>) -> seq<real>,
    rmse: (seq<real>, seq<real>) -> real)

  /**
   * The data the objective captures: the baseline aperture, the displacement
   * at the first row of the window, the displacement and velocity of the
   * later rows, and the experimental aperture over the whole window.
   */
  datatype InversionInputs = InversionInputs(b0: real, u0Ini: real, uEnd: seq<real>, v: seq<real>, bExp: seq<real>)

  /** The slice s[:n]: the first n entries, or all of s when it is shorter. */
  function Take<T>(s: seq<T>, n: nat): (r: seq<T>)
    ensures |r| == if n <= |s| then n else |s|
    ensures r == s[..|r|]
  {
    if n <= |s| then s[..n] else s
  }

  /** The slice s[1:]: everything after the first entry, or nothing. */
  function Rest<T>(s: seq<T>): (r: seq<T>)
    ensures |r| == if |s| == 0 then 0 else |s| - 1
    ensures forall j :: 0 <= j < |r| ==> r[j] == s[j + 1]
  {
    if |s| == 0 then [] else s[1..]
  }

  /** The dilation states of the first `count` prefixes: entry i sees the first i + 1 samples. */
  function Trajectory<State>(ph: Physics<State>, p: Params, uEnd: seq<real>, v: seq<real>, count: nat): (d: seq<State>)
    ensures |d| == count
  {
    seq(count, i requires 0 <= i < count => ph.dilPara(p.dilFact, Take(uEnd, i + 1), Take(v, i + 1), p.dc, DtAcq))
  }

  /** The modelled aperture for one candidate. */
  function ModelledAperture<State>(ph: Physics<State>, inp: InversionInputs, p: Params): seq<real>
  {
    var bSlip := ph.slipAperture(inp.b0, inp.uEnd, inp.u0Ini, p.dilAng);
    ph.shearDil(bSlip, Trajectory(ph, p, inp.uEnd, inp.v, |bSlip|))
  }

  /** The loop that fills one dilation state per prefix, in prefix order. */
  method DilationStates<State>(ph: Physics<State>, p: Params, uEnd: seq<real>, v: seq<real>, count: nat)
    returns (d: seq<State>)
    ensures |d| == count
    ensures forall i :: 0 <= i < count ==>
      d[i] == ph.dilPara(p.dilFact, Take(uEnd, i + 1), Take(v, i + 1), p.dc, DtAcq)
  {
    d := [];
    var i := 0;
    while i < count
      invariant 0 <= i <= count
      invariant |d| == i
      invariant forall j :: 0 <= j < i ==>
        d[j] == ph.dilPara(p.dilFact, Take(uEnd, j + 1), Take(v, j + 1), p.dc, DtAcq)
    {
      d := d + [ph.dilPara(p.dilFact, Take(uEnd, i + 1), Take(v, i + 1), p.dc, DtAcq)];
      i := i + 1;
    }
  }

  /** The objective: RMSE between the modelled aperture and the experimental one after its first sample. */
  method Evaluate<State>(ph: Physics<State>, inp: InversionInputs, p: Params) returns (score: real)
    ensures score == ph.rmse(ModelledAperture(ph, inp, p), Rest(inp.bExp))
  {
    var bSlip := ph.slipAperture(inp.b0, inp.uEnd, inp.u0Ini, p.dilAng);
    var states := DilationStates(ph, p, inp.uEnd, inp.v, |bSlip|);
    assert states == Trajectory(ph, p, inp.uEnd, inp.v, |bSlip|);
    var bMod := ph.shearDil(bSlip, states);
    score := ph.rmse(bMod, Rest(inp.bExp));
  }

  /**
   * When the inputs are aligned and the displacement-dependent aperture has
   * one entry per displacement sample, there is one dilation state per
   * compared sample, state i is computed from exactly the first i + 1
   * displacements and velocities, and the last state sees all of them.
   */
  lemma AlignedPrefixes<State>(ph: Physics<State>, inp: InversionInputs, p: Params)
    requires |inp.uEnd| == |inp.v| == |inp.bExp| - 1
    requires |ph.slipAperture(inp.b0, inp.uEnd, inp.u0Ini, p.dilAng)| == |inp.uEnd|
    ensures var bSlip := ph.slipAperture(inp.b0, inp.uEnd, inp.u0Ini, p.dilAng);
      var d := Trajectory(ph, p, inp.uEnd, inp.v, |bSlip|);
      |d| == |Rest(inp.bExp)| &&
      (forall i :: 0 <= i < |d| ==>
        d[i] == ph.dilPara(p.dilFact, inp.uEnd[..i + 1], inp.v[..i + 1], p.dc, DtAcq)) &&
      (|d| > 0 ==> d[|d| - 1] == ph.dilPara(p.dilFact, inp.uEnd, inp.v, p.dc, DtAcq))
  {
    var d := Trajectory(ph, p, inp.uEnd, inp.v, |inp.uEnd|);
    forall i | 0 <= i < |d|
      ensures d[i] == ph.dilPara(p.dilFact, inp.uEnd[..i + 1], inp.v[..i + 1], p.dc, DtAcq)
    {
      assert Take(inp.uEnd, i + 1) == inp.uEnd[..i + 1];
      assert Take(inp.v, i + 1) == inp.v[..i + 1];
    }
    if |d| > 0 {
      assert inp.uEnd[..|d|] == inp.uEnd && inp.v[..|d|] == inp.v;
    }
  }
}
