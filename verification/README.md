# Preprocessing and objective shape of the fracture-aperture inversion

This project models the data-preparation pipeline of `main.py`. The script
inverts the mechanical aperture change of a sheared rock fracture during
normal-stress unloading. Before the genetic-algorithm search runs, it turns
a direct-shear test table into the inputs of the objective function:

1. **Slip velocity** (`Velocity`). The velocity is the first difference of
   the raw slip displacement over the acquisition interval (1), with
   negative rates set to 0. It is computed *before* the displacement repair.
2. **Displacement repair** (`Repair`). An in-place left-to-right pass raises
   every sample that is below its already repaired predecessor to that
   predecessor. The result is the running maximum of the column.
3. **Stable-sliding window and zero-velocity fill** (`Window`). The rows
   labelled 388 to 694, both included, are cut out of the velocity column.
   Each zero in the window is then replaced, left to right and in place, by
   the mean of its filled left neighbour and its original right neighbour.
   A zero at either edge of the window reads a label outside the window,
   and the script stops there with a lookup error.
4. **Aperture** (`Aperture`). The aperture at the onset is
   `1.340498 − σ₀ / k_n`. The aperture column closes by the growth of the
   normal displacement. The experimental aperture over the window adds back
   the unloading correction `(σ − σ_start) / k_n`.
5. **Inputs of the objective** (`Pipeline`). These are `b_0`, `u0_ini`,
   `u_end`, `v` and `b_exp`. `Pipeline.Prepare` runs steps 1–4 in the
   script's order over an array holding the displacement column, and is
   proved equal to the specification function `Pipeline.Preprocess`. That
   function is defined through `Pipeline.Inputs` and the window functions
   `WindowAperture`, `WindowDisplacement` and `WindowVelocity`.
6. **Objective shape** (`Objective`). `fun_obj` computes one dilation state
   per prefix `[:i+1]` of `u_end` and `v`, and compares the modelled aperture
   with `b_exp[1:]`. The physical model and the RMSE enter as function values.

All quantities are `real`. The repair uses comparisons only. The other steps
are differences, means and linear formulas, which `real` models structurally
(see Left out).

## Model

| member | source | states |
|---|---|---|
| `Velocity.ClampNegative` | main.py:21 | the result is the least value that is both ≥ 0 and ≥ the rate, and is either the rate or 0 |
| `Velocity.RowVelocity` | main.py:19-21 | the velocity of row k ≥ 1 is ≥ 0, is positive exactly when the raw displacement advanced, and equals difference / interval when the difference is ≥ 0 |
| `Velocity.Velocities` | main.py:19-21 | the column has one entry per row after row 0, and the same three facts hold at every row |
| `Repair.PrefixMax` | main.py:25-33 | the value is ≥ every sample up to i and equal to one of them, so it is the maximum of the prefix |
| `Repair.RunningMax` | main.py:25-33 | one entry per sample, entry i being PrefixMax up to i; its meaning is proved in RunningMaxNonDecreasing, RunningMaxLeast and RunningMaxIdempotent |
| `Repair.RunningMaxNonDecreasing` | main.py:25-33 | the repaired column is non-decreasing, never below the original, and keeps its first sample |
| `Repair.RunningMaxStep` | main.py:26-33 | sample i is replaced by its repaired predecessor exactly when it is below it, and changes only then |
| `Repair.RunningMaxLeast` | main.py:25-33 | the repaired column is the least non-decreasing column lying on or above the original |
| `Repair.RunningMaxIdempotent` | main.py:25-33 | a non-decreasing column is left unchanged, and repairing twice equals repairing once |
| `Repair.RepairDisplacement` | main.py:25-33 | the in-place pass leaves the array equal to the running maximum of its old contents |
| `Window.Rows` | main.py:38-42 | the selection keeps the rows labelled first..last in order, is cut short only by the end of the table, and holds last − first + 1 rows when the table reaches last |
| `Window.RowsFromOne` | main.py:40-42 | the same row selection, for a column whose first entry is row 1 |
| `Window.FillPrefix` | main.py:46-48 | the first k positions after the pass has visited them, k entries long; what it leaves at each position is proved in FillAt, FillPrefixStable, FillNonNegative and FillPositive |
| `Window.FillStop` | main.py:46-48 | the pass stops at the first position whose value is 0 and is at an edge of the window, or runs to the end when neither edge is 0 |
| `Window.FillError` | main.py:46-48 | a zero at the first position fails on label first − 1; a zero only at the last position fails on label first + length; otherwise nothing fails |
| `Window.FillPrefixStable` | main.py:46-48 | filling further positions never changes positions already filled |
| `Window.FillAt` | main.py:46-48 | a non-zero value is kept; an interior zero becomes (filled left neighbour + original right neighbour) / 2 |
| `Window.FillNonNegative` | main.py:46-48 | filling non-negative velocities gives non-negative velocities |
| `Window.FillPositive` | main.py:46-48 | when the first (and, for the whole window, the last) value is not 0, every filled velocity is positive |
| `Window.FillZeroVelocities` | main.py:46-48 | the in-place pass returns the label of the failed lookup exactly as FillError says, and leaves the filled prefix up to the stop position followed by the untouched rest |
| `Aperture.InitialAperture` | main.py:66-69 | the onset aperture equals the maximum aperture under zero stress, is below it exactly when the stress is positive (positive stiffness), and the closure times the stiffness is the stress |
| `Aperture.ApertureColumn` | main.py:70-73 | the column starts at the onset aperture, and at each row it has closed by the growth of normal displacement since row 0 |
| `Aperture.ApertureChange` | main.py:70-73 | between two rows the aperture closes by the normal-displacement growth; a different onset aperture shifts every row equally |
| `Aperture.UnloadCorrection` | main.py:75-78 | the correction is 0 at the first window row, times the stiffness it equals the stress change, and for positive stiffness it is negative exactly where the stress fell |
| `Aperture.ExperimentalAperture` | main.py:80-81 | the experimental aperture equals the measured one at the first row, and its later changes are the measured changes plus stress change / stiffness |
| `Objective.Take` | main.py:115 | the slice `[:n]` has min(n, length) entries and is a prefix |
| `Objective.Rest` | main.py:121 | the slice `[1:]` is one shorter (or empty) and shifted by one |
| `Objective.Trajectory` | main.py:110-115 | one dilation state per compared sample; AlignedPrefixes proves state i is dil_para over exactly the first i + 1 samples |
| `Objective.ModelledAperture` | main.py:110-118 | the shear-dilation aperture of b_slip and the prefix states; Evaluate proves the loop computes it and AlignedPrefixes proves the states line up with b_slip |
| `Objective.DilationStates` | main.py:113-115 | the loop produces one state per index, and state i is dil_para over the slices `[:i+1]` of u_end and v |
| `Objective.Evaluate` | main.py:94-123 | the score is rmse(shear-dilation aperture of b_slip and the prefix states, b_exp[1:]) |
| `Objective.AlignedPrefixes` | main.py:110-121 | for aligned inputs and a length-preserving b_slip, there are as many states as compared samples, state i sees exactly the first i + 1 samples, and the last state sees all of them |
| `Pipeline.VelocityWindow` | main.py:38-42 | the windowed velocity of row first + j is ≥ 0, is 0 exactly when the raw displacement did not advance there, and otherwise is the raw difference / interval |
| `Pipeline.Preprocess` | main.py:18-91 | the preparation of the columns as read succeeds only on a window holding rows, and then yields Inputs; PreprocessOutcome characterises every outcome in terms of the raw displacement |
| `Pipeline.Inputs` | main.py:86-91 | b_exp has one entry per window row and b_0 is its first entry; u_end and v each have one fewer; InputsAligned adds the 307 rows of the stable-sliding window |
| `Pipeline.WindowAperture` | main.py:75-81 | b_exp has one entry per window row; WindowApertureBaseline proves its baseline and its change formula |
| `Pipeline.WindowDisplacement` | main.py:87-88 | one repaired displacement per window row; WindowDisplacementRepaired proves each is the raw prefix maximum and that they never decrease |
| `Pipeline.WindowVelocity` | main.py:45-48 | one filled velocity per window row; WindowVelocityPositive and WindowVelocityFromRaw prove it positive and equal to the raw rate where the slip advanced |
| `Pipeline.Prepare` | main.py:18-91 | velocity from the column as read, then the in-place repair (the array ends as its running maximum), then window, fill and aperture; the outcome equals Preprocess of the old column |
| `Pipeline.PreprocessOutcome` | main.py:45-77 | for a non-empty window, the preparation fails on label first − 1 exactly when the slip did not advance at the first row; it fails on the label after the window exactly when the slip advanced there but not at the last row; otherwise it yields Inputs; an empty window fails with key 0 on an empty table and with EmptyWindow otherwise, the key-0 outcome being one the script does not reach, because its regression fails first on tables that short (see Left out) |
| `Pipeline.VelocityAtEdges` | main.py:46-48 | the windowed velocity is 0 at an edge row exactly when the raw displacement did not advance there |
| `Pipeline.InputsAligned` | main.py:86-91 | b_exp has one entry per window row; u_end, v and b_exp[1:] each have one fewer; b_0 is b_exp's first entry; the stable-sliding window of a long enough table has 307 rows |
| `Pipeline.WindowApertureBaseline` | main.py:75-86 | b_0 is the measured aperture at the first window row; every b_exp entry differs from b_0 by the normal-displacement closure plus stress change / stiffness |
| `Pipeline.WindowDisplacementRepaired` | main.py:87-88 | every windowed displacement is the maximum of the raw displacement up to its row, so u0_ini followed by u_end is non-decreasing |
| `Pipeline.WindowVelocityPositive` | main.py:45-48 | when the slip advanced at both window edges, every filled velocity handed on is positive |
| `Pipeline.WindowVelocityFromRaw` | main.py:18-48 | a window row whose raw displacement advanced keeps the raw difference / interval through the fill |

## Left out

- Reading the spreadsheet (`pd.read_excel`, main.py:15) and the DataFrame
  column plumbing are file I/O. The columns enter as sequences of one entry
  per row, with row labels 0..n−1.
- The normal-stiffness regression (`np.polyfit`, main.py:52-61) is a
  floating-point least-squares fit in a library. `norm_stiff` is an input,
  required to be non-zero. A table too short for the stiffness segment
  [252, 376] (fewer than 253 rows) fails inside that regression, before
  main.py:66 is reached. That failure is not modelled. With the script's
  segments, the empty table therefore never reaches the lookup of row 0 at
  main.py:68, which `Preprocess` reports as `MissingLabel(0)`. A table of 253
  to 388 rows passes the regression and selects an empty window, whose first
  label is looked up at main.py:77; that is `EmptyWindow`.
- The physical model (`aperture_slip_disp`, `dil_para`, `aperture_shear_dil`)
  and `rmse` belong to the `functions` module, which is not part of this
  model. They enter as function values in `Objective.Physics`. Nothing is
  assumed about them except, in `AlignedPrefixes`, that `aperture_slip_disp`
  returns one entry per displacement sample.
- The genetic-algorithm search (`sko.GA`, main.py:126-139) is a stochastic
  external library, and the `print` reporting (main.py:143-148) is output.
  The parameter bounds it is configured with are not modelled.
- Row 0 of the velocity column is NaN in the script (no predecessor). The
  model has no row 0 and requires the window to start at row 1 or later.
  The script's window starts at 388.
- Floating point: `real` is exact. The repair (comparisons only) is exact in
  both. Differences, divisions, means and the aperture formulas are modelled
  without rounding, and NaN and infinities are not represented.
- The script pre-allocates `d_phi_2dim` as `[0] * len(b_slip)` and overwrites
  its entries. `Objective.DilationStates` appends them instead; the resulting
  list is the same.
- `fun_obj` checks neither the parameter bounds nor the window length, and
  any length check in `rmse` belongs to the `functions` module, which is not
  part of this model. The model has none of these checks.
