/**
 * Repair of the slip-displacement column (main.py:24-33): one left-to-right
 * pass that overwrites every sample smaller than its already repaired
 * predecessor with that predecessor. The pass computes the running maximum.
 */
module Repair {

  function Max(a: real, b: real): real
  {
    if a < b then b else a
  }

  /** The largest of s[0], ..., s[i]. */
  function PrefixMax(s: seq<real>, i: nat): (m: real)
    requires i < |s|
    ensures forall j :: 0 <= j <= i ==> s[j] <= m
    ensures exists j :: 0 <= j <= i && s[j] == m
  {
    if i == 0 then s[0] else Max(PrefixMax(s, i - 1), s[i])
  }

  /** The column after the repair: entry i is the maximum of the entries up to i. */
  function RunningMax(s: seq<real>): (r: seq<real>)
    ensures |r| == |s|
  {
    seq(|s|, i requires 0 <= i < |s| => PrefixMax(s, i))
  }

  predicate NonDecreasing(s: seq<real>)
  {
    forall i, j :: 0 <= i <= j < |s| ==> s[i] <= s[j]
  }

  /** The repaired column never decreases, no entry is lowered, and the first entry is kept. */
  lemma RunningMaxNonDecreasing(s: seq<real>)
    ensures NonDecreasing(RunningMax(s))
    ensures |s| > 0 ==> RunningMax(s)[0] == s[0]
    ensures forall i :: 0 <= i < |s| ==> s[i] <= RunningMax(s)[i]
  {
    var r := RunningMax(s);
    forall i, j | 0 <= i <= j < |s| ensures r[i] <= r[j] {
      var k :| 0 <= k <= i && s[k] == r[i];
      assert s[k] <= PrefixMax(s, j);
    }
  }

  /**
   * One step of the pass: entry i (i >= 1) is overwritten with its repaired
   * predecessor exactly when it is below it; otherwise it is kept.
   */
  lemma RunningMaxStep(s: seq<real>, i: nat)
    requires 0 < i < |s|
    ensures s[i] < RunningMax(s)[i - 1] ==> RunningMax(s)[i] == RunningMax(s)[i - 1]
    ensures s[i] >= RunningMax(s)[i - 1] ==> RunningMax(s)[i] == s[i]
    ensures RunningMax(s)[i] != s[i] ==> s[i] < RunningMax(s)[i - 1]
  {
  }

  /**
   * The repaired column is the least non-decreasing column lying on or above
   * the original one.
   */
  lemma RunningMaxLeast(s: seq<real>, t: seq<real>)
    requires |t| == |s| && NonDecreasing(t)
    requires forall i :: 0 <= i < |s| ==> s[i] <= t[i]
    ensures forall i :: 0 <= i < |s| ==> RunningMax(s)[i] <= t[i]
  {
    var r := RunningMax(s);
    forall i | 0 <= i < |s| ensures r[i] <= t[i] {
      var k :| 0 <= k <= i && s[k] == r[i];
      assert t[k] <= t[i];
    }
  }

  /** An already non-decreasing column is left unchanged, so repairing twice is repairing once. */
  lemma RunningMaxIdempotent(s: seq<real>)
    ensures NonDecreasing(s) ==> RunningMax(s) == s
    ensures RunningMax(RunningMax(s)) == RunningMax(s)
  {
    if NonDecreasing(s) {
      forall i | 0 <= i < |s| ensures RunningMax(s)[i] == s[i] {
        var k :| 0 <= k <= i && s[k] == PrefixMax(s, i);
      }
    }
    RunningMaxNonDecreasing(s);
    var r := RunningMax(s);
    forall i | 0 <= i < |r| ensures RunningMax(r)[i] == r[i] {
      var k :| 0 <= k <= i && r[k] == PrefixMax(r, i);
    }
  }

  /** The in-place repair pass over the displacement column. */
  method RepairDisplacement(u: array<real>)
    modifies u
    ensures u[..] == RunningMax(old(u[..]))
  {
    ghost var s := u[..];
    if u.Length == 0 {
      return;
    }
    var i := 1;
    while i < u.Length
      invariant 1 <= i <= u.Length
      invariant u[..i] == RunningMax(s)[..i]
      invariant u[i..] == s[i..]
    {
      assert u[i] == s[i] && u[i - 1] == PrefixMax(s, i - 1);
      if u[i] - u[i - 1] < 0.0 {
        u[i] := u[i - 1];
      }
      assert u[..i + 1] == u[..i] + [PrefixMax(s, i)];
      i := i + 1;
    }
  }
}
