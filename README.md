# scoreHandle score adjustment, modelled in Dafny

scoreHandle reads a roster of students from a spreadsheet, adjusts each
student's daily score (平时分) so that the final score (总分 = 40% peer-review
total 对分易总分 + 60% daily score) first reaches a pass mark of 60 and then
moves toward a normal distribution with mean 75 and standard deviation 8,
writes the roster to `<name>_adjusted.xls[x]` and prints the mean, the
standard deviation and the final scores of the first and the last row.

This project models that core:

- `student.dfy`, module `Students`: the roster row (`Student`), the weighted
  final-score formula and its inverse (the daily score a target final score
  requires), the row as the loader builds it, and the fact that a
  permutation of rows is a permutation of their unchanging fields.
- `adjust.dfy`, module `Adjust`: `adjustScores` as three in-place methods
  over an `array<Student>` (pass 1 `FloorPass`, the sort `SortByFinal`,
  pass 2 `ReshapePass`) composed by `AdjustScores`. The sort and the whole
  adjustment also return a ghost one-to-one pairing `perm` of output
  positions with input rows. Each method is proved
  against a per-row function (`RaiseToPass`, `ReshapeOne`, `Target`), and
  the properties are proved about those functions. The z-score is a
  parameter `z: real -> real`, so every property holds for any quantile
  function; the program's own is the one in `inverse_normal.dfy`.
- `inverse_normal.dfy`, module `InverseNormal`: the branch skeleton of
  `inverseNormalCDF` (the sentinels -10 and 10, the breakpoints 0.02425 and
  1 - 0.02425, the three regions). The two rational polynomials are
  function parameters.
- `statistics.dfy`, module `Statistics`: `calculateMean` as a loop proved
  against a recursive sum.
- `output_filename.dfy`, module `OutputFilename`: `generateOutputFilename`
  over `seq<char>`, exactly.

Scores are `real`. Equalities such as "the final score is exactly 60" hold
over the reals and only up to rounding in the float64 program.

Facts the proofs made precise:

- Pass 1 has no cap, but it sets a daily score above 100 only when the
  peer-review total is negative (`RaiseToPassAboveMaxNeedsNegative`): the
  required daily score `(60 - 0.4 d) / 0.6` exceeds 100 exactly when `d < 0`.
- The adjusted roster is in ascending order of the final scores after
  pass 1, not of the final scores it ends with: a row that pass 2 raises to
  its target can overtake a later row whose target would need a daily score
  above 100 (`ReshapeMayUnsort`). `printStatistics` reports `students[0]` and
  `students[len-1]` as the lowest and highest score, which relies on that
  order.
- Two different inputs can share one output name: "a" and "a.xls" both give
  "a_adjusted.xls" (`NamesCollide`). The output name never equals the input
  name (`OutputDiffersFromInput`).

## Model

| member | source | states |
|---|---|---|
| `Students.NewStudent` | cmd/root.go:95-104 | a loaded row has its final score computed as 0.4 × peer-review total + 0.6 × daily score, with the other fields as read |
| `Students.WeightedFinal` | cmd/root.go:104 | the final score 0.4 × peer-review total + 0.6 × daily score determines the daily score back: `RequiredDaily` of it is the daily score |
| `Students.RequiredDaily` | cmd/root.go:115 | the daily score (target - 0.4 × peer-review total) / 0.6 makes the weighted final score exactly the target |
| `Students.Consistent` | cmd/root.go:104 | a row's final score is the weighted final of its components exactly when its daily score is the one its final score requires |
| `Students.KeysPermutation` | cmd/root.go:128-130 | reordering the rows reorders their id, name, gender, objective, subjective and peer-review fields with them: the multisets of these are equal |
| `InverseNormal.RegionOf` | cmd/root.go:199-213 | strictly inside (0,1): low tail exactly below 0.02425, high tail exactly above 1 - 0.02425, central in between, both breakpoints included |
| `InverseNormal.CentralValue` | cmd/root.go:208-212 | the central formula, ratio(q·q)·q, is 0 at q = 0 |
| `InverseNormal.CentralOdd` | cmd/root.go:208-212 | the central formula is odd: its value at -q is minus its value at q, whatever the ratio polynomial |
| `InverseNormal.Interior` | cmd/root.go:199-217 | below 0.02425 the tail formula at p; from 0.02425 to 1 - 0.02425 the central formula at p - 0.5; above 1 - 0.02425 the tail formula at 1 - p, which then lies in the low tail, negated; 0 at p = 0.5 |
| `InverseNormal.InverseNormalCDF` | cmd/root.go:177-220 | p <= 0 gives the sentinel -10 and p >= 1 the sentinel 10 whatever the polynomials; strictly inside (0,1) the region formula `Interior` |
| `InverseNormal.RegionMirror` | cmd/root.go:199-213 | the breakpoints 0.02425 and 1 - 0.02425 are mirror images: p is central exactly when 1 - p is, and in the low tail exactly when 1 - p is in the high tail |
| `InverseNormal.Symmetric` | cmd/root.go:199-217 | quantile(1 - p) == -quantile(p) for every real p, sentinels included, for any tail and central polynomials |
| `InverseNormal.MedianIsZero` | cmd/root.go:208-212 | quantile(0.5) == 0 |
| `Adjust.RaiseToPass` | cmd/root.go:113-121 | pass 1 on one row: changes only the daily and final scores, never lowers either; a changed row had a final score under 60, now has exactly 60 and is consistent; a consistent row ends with final score >= 60; with a non-negative peer-review total a new daily score is <= 100 |
| `Adjust.RaiseToPassUncapped` | cmd/root.go:115-118 | pass 1 is not capped: peer-review total -15 and daily 0 yields daily score 110 |
| `Adjust.RaiseToPassAboveMaxNeedsNegative` | cmd/root.go:115-118 | if pass 1 sets a daily score above 100, the peer-review total is negative |
| `Adjust.FloorPass` | cmd/root.go:113-121 | the loop leaves every row equal to `RaiseToPass` of its old value |
| `Adjust.SwapKeepsPermutation` | cmd/root.go:128-130 | exchanging two neighbouring entries of a one-to-one pairing keeps it one-to-one |
| `Adjust.SortByFinal` | cmd/root.go:128-130 | the array ends ascending by final score, is a permutation of the old array, and row i is old row perm[i] for a one-to-one pairing perm |
| `Adjust.InsertIntoSorted` | cmd/root.go:128-130 | one sorting step: with a[..i] ascending, a[..i+1] ends ascending, the rows after i are untouched, the array is a permutation of the old one and the pairing with the original rows stays one-to-one |
| `Adjust.SwapWithPrevious` | cmd/root.go:128-130 | exchanges two neighbouring rows and the matching entries of the pairing, which stays one-to-one; nothing else changes |
| `Adjust.Percentile` | cmd/root.go:135 | the percentile (i+1)/(n+1) of a rank i < n lies strictly inside (0,1) |
| `Adjust.PercentileAvoidsSentinels` | cmd/root.go:135-138 | on a percentile the quantile function never takes its -10/10 sentinel branches |
| `Adjust.Clamp` | cmd/root.go:142-147 | the clamped target lies in [60,100], equals the unclamped one inside that range, is 60 below it and 100 above it |
| `Adjust.Target` | cmd/root.go:135-147 | the target score 75 + 8·z(percentile), clamped, is in [60,100] for every z |
| `Adjust.ReshapeOne` | cmd/root.go:149-156 | pass 2 on one row: changes only the daily and final scores, never lowers either; a row is either unchanged or ends with final score equal to its target, consistent, with a strictly higher daily score that is <= 100 |
| `Adjust.ReshapeOneChangesIff` | cmd/root.go:150-155 | on a consistent row, pass 2 changes it exactly when the target exceeds the final score and the required daily score is <= 100; the row stays consistent |
| `Adjust.ReshapePass` | cmd/root.go:133-157 | the loop leaves the row at rank i equal to `ReshapeOne` of its old value with the target of rank i |
| `Adjust.FloorAndSort` | cmd/root.go:111-130 | after pass 1 and the sort the array is ascending by final score, a permutation of pass 1's output, and row i is pass 1 applied to input row perm[i] for a one-to-one pairing perm |
| `Adjust.RaisedByCompose` | cmd/root.go:111-158 | the one-to-one "each output row raises its paired input row" relation composes: adjusting an adjusted roster again pairs every final row one-to-one with an original row that it does not lower |
| `Adjust.AdjustedProperties` | cmd/root.go:111-158 | pass 2 applied to pass 1's output permuted by a one-to-one pairing perm keeps the multiset of unchanging fields, makes each row a raised copy of input row perm[i], keeps every row consistent and leaves every final score >= 60 when the input was consistent |
| `Adjust.AdjustScores` | cmd/root.go:111-158 | the result is pass 2 applied to a sorted permutation of pass 1's output, where row i comes from input row perm[i] for a one-to-one pairing perm; only daily and final scores change; no row's score is lowered relative to its own input row; consistent input gives consistent output with every final score >= 60 |
| `Adjust.ReshapeMayUnsort` | cmd/root.go:128-157 | for any z near the normal quantiles at 1/3 and 2/3, a two-row roster sorted after pass 1 ends with the first row's final score above the second's |
| `Adjust.SingleRowScenario` | cmd/root.go:111-158 | one row with peer-review total 50 and daily 50: pass 1 gives final 60 and daily 200/3; with the program's quantile function, whatever its polynomials, pass 2 gives final 75 and daily 275/3 |
| `Statistics.SumFinalSplitFirst` | cmd/root.go:161-164 | over the reals the sum the loop accumulates equals the first score plus the sum of the rest; float64 summation, which depends on order, is not modelled |
| `Statistics.SumFinalBounds` | cmd/root.go:160-166 | n final scores in [lo,hi] sum to a value in [n·lo, n·hi] |
| `Statistics.CalculateMean` | cmd/root.go:160-166 | the loop's mean times n equals the sum of the final scores |
| `Statistics.MeanWithinBounds` | cmd/root.go:160-166 | the mean lies between any lower and upper bound of the final scores, so after adjustment it is >= 60 |
| `OutputFilename.TrimSuffix` | cmd/root.go:224-227 | `strings.TrimSuffix`, with `HasSuffix` for `strings.HasSuffix`: with the suffix present, the result followed by the suffix is the input; without it, the input is returned unchanged |
| `OutputFilename.Extension` | cmd/root.go:223-226 | the extension is ".xlsx" exactly when the input ends in ".xlsx", else ".xls" |
| `OutputFilename.GenerateOutputFilename` | cmd/root.go:222-229 | the output name is at least nine characters longer than the input name |
| `OutputFilename.OutputFilenameSuffix` | cmd/root.go:222-229 | the output ends in "_adjusted.xlsx" exactly when the input ends in ".xlsx", and in "_adjusted.xls" otherwise |
| `OutputFilename.OutputFilenameCases` | cmd/root.go:222-229 | ".xlsx" names lose 5 characters and ".xls" names lose 4 before "_adjusted" plus the extension is appended; any other name is kept whole and gets "_adjusted.xls" |
| `OutputFilename.OutputDiffersFromInput` | cmd/root.go:222-229 | the output name never equals the input name, so the input file is never overwritten |
| `OutputFilename.OutputFilenameRoundTrip` | cmd/root.go:222-229 | for an ".xls" or ".xlsx" input, removing "_adjusted" before the extension gives back the input name |
| `OutputFilename.NamesCollide` | cmd/root.go:222-229 | "a" and "a.xls" both map to "a_adjusted.xls": two inputs can share one output file |
| `OutputFilename.OtherExtensionKeptWhole` | cmd/root.go:222-229 | a name with another extension is kept whole: "a.csv" maps to "a.csv_adjusted.xls" |

## Left out

- `readExcel` and `writeExcel` (cmd/root.go:72-109, 231-256): spreadsheet I/O through the excelize library and the `%.0f` / `%.1f` formatting. The loader ignores the error of `strconv.ParseFloat` (cmd/root.go:90-93): an unparsable cell becomes 0, an out-of-range cell such as "1e400" becomes ±Inf, and "NaN" and "Inf" are accepted as such. Only the construction of a row from parsed reals is modelled (`NewStudent`).
- NaN and ±Inf scores: the model's scores are reals, so every property above assumes finite scores. In the program a peer-review total of -Inf with daily score 50 gives final -Inf, pass 1 then computes a required daily score of +Inf and the final score becomes NaN (cmd/root.go:114-118), which is below no bound; `RaiseToPass`'s "final score >= 60" does not hold for such a row.
- `rootCmd`, `Execute`, `init` (cmd/root.go:31-70): command-line wiring and console messages.
- The rational-polynomial bodies of `inverseNormalCDF` (cmd/root.go:187-197, 205-207, 214-216): float64 numerics with `math.Log` and `math.Sqrt`. They are the `tail` and `centralRatio` parameters; the central value is modelled as ratio(r)·q where the program computes numerator(r)·q / denominator(r). Monotonicity of the quantile function is therefore not modelled.
- `calculateStdDev` (cmd/root.go:168-175): needs `math.Sqrt`.
- `printStatistics` (cmd/root.go:258-267): console output; it reads `students[0]`, so it needs a non-empty roster.
- Float64 rounding: all scores are reals, so "exactly 60", "exactly the target" and the symmetry of the breakpoints hold only approximately in the program (1 - 0.02425 is not exact in float64).
- Pointers and aliasing: the program sorts a slice of `*Student`; the model keeps the rows by value in an array. This is the same behaviour as long as no row is referenced twice, which the loader guarantees by allocating one row per line.
- Tie order of the sort: `sort.Slice` is not stable; `SortByFinal` promises only sortedness and the permutation, so nothing is claimed about ties.
- CalculateMean: requires a non-empty roster; on an empty one the program divides 0 by 0 and gets NaN, which reals cannot express.
- AdjustScores: the z-score is an arbitrary function parameter, so nothing that depends on the actual quantile values (for instance that targets increase with rank) is claimed.
