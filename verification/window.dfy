/**
 * The stable-sliding window (main.py:35-42) and the zero-velocity fill that
 * runs over it (main.py:45-48).
 *
 * A window is selected from a column by its row labels: the rows whose label
 * lies in the inclusive range [first, last]. Labels beyond the end of the
 * table select nothing. The fill walks the window left to right and replaces
 * every zero by the mean of its left neighbour (already filled) and its right
 * neighbour (not yet visited). Reading a neighbour outside the window is a
 * lookup of a label that the window does not hold.
 */
module Window {

  datatype Option<T> = None | Some(value: T)

  function Min(a: int, b: int): int
  {
    if a < b then a else b
  }

  /** How many rows of an n-row table carry a label in [first, last]. */
  function RowCount(n: nat, first: nat, last: nat): nat
  {
    if first <= last && first < n then Min(last + 1, n) - first else 0
  }

  /** The rows of a column whose label lies in [first, last], in order. */
  function Rows(col: seq<real>, first: nat, last: nat): (w: seq<real>)
    ensures |w| == RowCount(|col|, first, last)
    ensures forall j :: 0 <= j < |w| ==> first + j <= last && w[j] == col[first + j]
    ensures first <= last < |col| ==> |w| == last - first + 1
  {
    if first <= last && first < |col| then col[first..Min(last + 1, |col|)] else []
  }

  /**
   * The rows [first, last] of a column that starts at row 1 (position k - 1
   * holds row k), such as the velocity column.
   */
  function RowsFromOne(col: seq<real>, first: nat, last: nat): (w: seq<real>)
    requires 1 <= first
    ensures |w| == RowCount(|col| + 1, first, last)
    ensures forall j :: 0 <= j < |w| ==> w[j] == col[first + j - 1]
  {
    if last < first then [] else Rows(col, first - 1, last - 1)
  }

  /**
   * The first k entries of the window s after the fill has visited positions
   * 0 .. k - 1. A zero strictly inside the window becomes the mean of the
   * filled left neighbour and the original right neighbour; a zero at either
   * edge is where the pass stops with an error (see FillStop), so it is kept.
   */
  function FillPrefix(s: seq<real>, k: nat): (r: seq<real>)
    requires k <= |s|
    ensures |r| == k
    decreases k
  {
    if k == 0 then []
    else
      var p := FillPrefix(s, k - 1);
      var i := k - 1;
      p + [if s[i] == 0.0 && 0 < i < |s| - 1 then (p[i - 1] + s[i + 1]) / 2.0 else s[i]]
  }

  /** Position at which the pass stops: the first edge zero it meets, or the end of the window. */
  function FillStop(s: seq<real>): (k: nat)
    ensures k <= |s|
    ensures |s| > 0 && s[0] == 0.0 ==> k == 0
    ensures k < |s| ==> s[k] == 0.0 && (k == 0 || k == |s| - 1)
    ensures k == |s| ==> |s| == 0 || (s[0] != 0.0 && s[|s| - 1] != 0.0)
  {
    if |s| > 0 && s[0] == 0.0 then 0
    else if |s| > 0 && s[|s| - 1] == 0.0 then |s| - 1
    else |s|
  }

  /**
   * The label whose lookup fails, if any: a zero at the first position reads
   * label first - 1 (the left neighbour is read before the right one), a zero
   * at the last position reads the label after the window.
   */
  function FillError(s: seq<real>, first: int): (e: Option<int>)
    ensures e.None? <==> FillStop(s) == |s|
    ensures e == Some(first - 1) <==> |s| > 0 && s[0] == 0.0
    ensures e == Some(first + |s|) <==> |s| > 0 && s[0] != 0.0 && s[|s| - 1] == 0.0
  {
    if |s| > 0 && s[0] == 0.0 then Some(first - 1)
    else if |s| > 0 && s[|s| - 1] == 0.0 then Some(first + |s|)
    else None
  }

  /** Filling more positions does not change the positions already filled. */
  lemma {:induction false} FillPrefixStable(s: seq<real>, j: nat, k: nat)
    requires j <= k <= |s|
    ensures FillPrefix(s, k)[..j] == FillPrefix(s, j)
    decreases k
  {
    if j < k {
      FillPrefixStable(s, j, k - 1);
      assert FillPrefix(s, k)[..k - 1] == FillPrefix(s, k - 1);
    }
  }

  /**
   * What the pass leaves at position i: a non-zero value is kept, and an
   * interior zero becomes the mean of the filled left neighbour and the
   * original right neighbour.
   */
  lemma FillAt(s: seq<real>, k: nat, i: nat)
    requires i < k <= |s|
    ensures s[i] != 0.0 ==> FillPrefix(s, k)[i] == s[i]
    ensures s[i] == 0.0 && 0 < i < |s| - 1 ==>
      FillPrefix(s, k)[i] == (FillPrefix(s, k)[i - 1] + s[i + 1]) / 2.0
  {
    FillPrefixStable(s, i + 1, k);
    assert FillPrefix(s, k)[i] == FillPrefix(s, i + 1)[i];
    if 0 < i {
      assert FillPrefix(s, k)[i - 1] == FillPrefix(s, i + 1)[i - 1] == FillPrefix(s, i)[i - 1];
    }
  }

  /** Means of non-negative velocities are non-negative. */
  lemma {:induction false} FillNonNegative(s: seq<real>, k: nat)
    requires k <= |s|
    requires forall i :: 0 <= i < |s| ==> s[i] >= 0.0
    ensures forall i :: 0 <= i < k ==> FillPrefix(s, k)[i] >= 0.0
    decreases k
  {
    if k > 0 {
      FillNonNegative(s, k - 1);
      assert FillPrefix(s, k)[..k - 1] == FillPrefix(s, k - 1);
    }
  }

  /**
   * When the first value of a non-negative window is not zero, every value
   * the pass has visited is positive: the fill leaves no zero behind, except
   * an edge zero at which it stops.
   */
  lemma {:induction false} FillPositive(s: seq<real>, k: nat)
    requires k <= |s|
    requires forall i :: 0 <= i < |s| ==> s[i] >= 0.0
    requires |s| > 0 ==> s[0] != 0.0
    requires k == |s| && |s| > 0 ==> s[|s| - 1] != 0.0
    ensures forall i :: 0 <= i < k ==> FillPrefix(s, k)[i] > 0.0
    decreases k
  {
    if k > 0 {
      FillPositive(s, k - 1);
      assert FillPrefix(s, k)[..k - 1] == FillPrefix(s, k - 1);
    }
  }

  /**
   * The in-place fill pass over a copy of the windowed velocity, whose first
   * row carries label `first`. It returns the label of a failed neighbour
   * lookup, if any; the positions before the failure are filled already.
   */
  method FillZeroVelocities(a: array<real>, first: int) returns (missing: Option<int>)
    modifies a
    ensures missing == FillError(old(a[..]), first)
    ensures a[..] == FillPrefix(old(a[..]), FillStop(old(a[..]))) + old(a[..])[FillStop(old(a[..]))..]
  {
    ghost var s := a[..];
    var i := 0;
    while i < a.Length
      invariant 0 <= i <= a.Length
      invariant a[..i] == FillPrefix(s, i)
      invariant a[i..] == s[i..]
      invariant 0 < i ==> s[0] != 0.0
      invariant forall j :: 0 <= j < i && (j == 0 || j == |s| - 1) ==> s[j] != 0.0
    {
      assert a[i] == s[i];
      if a[i] == 0.0 {
        if i == 0 {
          return Some(first - 1);
        }
        if i == a.Length - 1 {
          assert a[..] == FillPrefix(s, i) + s[i..];
          return Some(first + a.Length);
        }
        a[i] := (a[i - 1] + a[i + 1]) / 2.0;
      }
      assert a[..i + 1] == FillPrefix(s, i + 1);
      i := i + 1;
    }
    assert a[..] == FillPrefix(s, a.Length) + s[a.Length..];
    return None;
  }
}
