# PuzzleSolver validation model

A Dafny model of the checking logic of the row/column-sum grid puzzle in
`src/PuzzleSolver.cs`. The puzzle is an N by N grid of integers with one
target sum per row and one per column. The model covers three parts.

- **The validator** (`Validator.Validate`). It classifies a grid against the
  targets as `Underflow`, `Exact` or `Overflow`. It scans every row and then
  every column with a running sum. It answers `Overflow` as soon as a running
  prefix exceeds its target. After the full scan it answers `Exact` when no
  total fell short, and `Underflow` otherwise. The grid is an `array2<int>`.
  The method has no `modifies` clause, so Dafny checks that it leaves the
  grid unchanged.
- **The order-independent reference** (`GridSums`). Prefix sums are recursive
  spec functions. `Overflows`, `Short` and `Classify` define the
  classification with quantifiers over rows and columns and have no scan
  order. The validator's loop invariants tie the loops to these definitions.
- **Construction** (`PuzzleSolver.New`). It runs the constructor's ordered
  checks through `Check`. A missing target array gives `ArgumentNull`. Unequal
  lengths, a negative target or an overflowing initial grid give
  `InvalidArgument`. On success it builds the solver state. The state holds a
  fresh grid from `InitializeMatrix`: a zero grid of size N by N, or a copy of
  the caller's grid.

Nullable arguments are `Option` values, and the .NET exceptions are the
`Error` datatype. Target arrays are `seq<int>` values.

Points where the code behaves in a way that is easy to misread:
- Overflow is decided on running prefixes, not on totals. A negative cell can
  therefore hide an overflowing prefix (`NegativeCellOverflowsBelowTotal`).
  When no cell or target is negative, the two views agree
  (`OverflowIffTotalExceeds`).
- "Exact" in the code means that nothing overflows and no total is below its
  target. This equals "every total matches its target" only when the targets
  are non-negative (`ExactIffTotalsMatch`). With a negative target and a grid
  with no columns, the code answers `Exact`.
- A missing target array is a null-argument error, not a general
  invalid-argument error.
- The constructor never checks that an initial grid is N by N. The grid only
  has to fit within the target arrays. A smaller grid is accepted, and the
  targets beyond its edge are never checked.

## Model

| member | source | states |
|---|---|---|
| Validator.Validate | src/PuzzleSolver.cs:35-73 | It answers Overflow exactly when some non-empty row or column prefix exceeds its target. It answers Exact exactly when nothing overflows and no total is below its target. It answers Underflow exactly when nothing overflows and some total is below its target. The answer equals the order-independent classification. |
| ClassificationLemmas.AllZeroClassification | src/PuzzleSolver.cs:35-73 | Take an all-zero grid whose size matches non-negative targets. It never overflows. It is Exact exactly when every target is zero, and Underflow exactly when some target is positive. |
| ClassificationLemmas.NoOverflowBoundsTotals | src/PuzzleSolver.cs:38-48 | With non-negative targets, a grid that does not overflow has every row and column total at or below its target. |
| ClassificationLemmas.ExactIffTotalsMatch | src/PuzzleSolver.cs:49-52 | With non-negative targets, Exact holds exactly when nothing overflows and every row and column total equals its target. |
| ClassificationLemmas.OverflowIffTotalExceeds | src/PuzzleSolver.cs:41-47 | With no negative cell and no negative target, some prefix overflows exactly when some row or column total exceeds its target. |
| ClassificationLemmas.NegativeCellOverflowsBelowTotal | src/PuzzleSolver.cs:43-46 | The row [5, -5] with target 3 overflows on its first prefix, although its total is below the target. |
| ClassificationLemmas.ClassifyTransposeInvariant | src/PuzzleSolver.cs:38-70 | Classifying the transposed grid against swapped targets gives the same value. Scanning rows before columns decides only when the scan stops, not what it answers. |
| PuzzleSolver.Check | src/PuzzleSolver.cs:85-91 | It fails with the given error exactly when the condition is false, and passes otherwise. |
| PuzzleSolver.InitializeMatrix | src/PuzzleSolver.cs:75-83 | The result is always a newly allocated array. With no initial grid, it is a size by size grid of zeros. Otherwise it has the initial grid's dimensions and contents and is a different array from the caller's. |
| PuzzleSolver.New | src/PuzzleSolver.cs:15-28 | It fails with ArgumentNull exactly when a target array is missing. It fails with InvalidArgument exactly when both are present and the lengths differ, a target is negative, or the initial grid overflows. On success the size is the number of row targets and the targets are stored unchanged. The grid is then newly allocated: either zeros or a copy of the initial grid that does not overflow. The fit of the initial grid is required only once the length and sign checks have passed. |
| PuzzleSolver.CopyPreservesOverflow | src/PuzzleSolver.cs:22-27 | A grid with the same contents classifies the same way. So the solver's copy keeps the classification the check accepted. |
| SampleGrids.ExactExample | src/PuzzleSolver.cs:35-73 | The grid [[1, 2], [3, 4]] is Exact for row targets [3, 7] and column targets [4, 6]. |
| SampleGrids.OverflowExample | src/PuzzleSolver.cs:15-73 | The grid [[9]] overflows the target 5, and the constructor rejects it as an initial grid with InvalidArgument. |
| SampleGrids.GuardOrderExample | src/PuzzleSolver.cs:19-22 | Unequal target lengths, or a negative target, are rejected with InvalidArgument even when the initial grid is larger than the targets, because those checks run before the validator. |
| SampleGrids.EmptyStartExample | src/PuzzleSolver.cs:15-83 | Without an initial grid, targets [3, 7] and [4, 6] are accepted. They give a 2 by 2 grid that is an Underflow. |

## Left out

- `Solve` throws a not-implemented exception in the source, so there is no search to model.
- Console rendering and timing do not appear in the modelled file. They are I/O.
- The .NET exception hierarchy is not modelled. A null-argument error is a kind of invalid-argument error in .NET. Here the two are distinct `Error` values.
- Validator.Validate: requires the grid to fit within the target arrays, which the source does not check. Without the fit the source may index past a target array. It does not always do so: an overflowing prefix can end the scan before the missing target is read. For example, the grid [[5], [0]] with row targets [0] and column targets [9] makes the source answer Overflow at line 46. The model excludes such inputs instead of following the scan that far. No error value is invented for them.
- PuzzleSolver.New: requires the same fit, but only once both target arrays are present, of equal length and free of negative targets. Inputs that fail those checks are handled as the source handles them. So an initial grid that does not fit but would be rejected by an overflowing prefix (as in the example above) is excluded rather than rejected with InvalidArgument.
- C# `int` arithmetic wraps around at 32 bits. The running sums here are unbounded integers.
- The source keeps references to the caller's target arrays (lines 25-26). A later write by the caller would therefore be visible to the solver. The model stores the targets as sequence values, which take a snapshot at construction. Nothing in the modelled file reads the targets after construction, so the two agree there.
