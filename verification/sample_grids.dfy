/** Concrete grids run through the validator and the constructor. */
module SampleGrids {
  import opened Wrappers
  import opened GridSums
  import Validator
  import PuzzleSolver
  import ClassificationLemmas

  /** The 2 by 2 grid [[1, 2], [3, 4]] meets row targets [3, 7] and column
      targets [4, 6] exactly. */
  method ExactExample() returns (v: Validation)
    ensures v == Exact
  {
    var a := new int[2, 2];
    a[0, 0], a[0, 1], a[1, 0], a[1, 1] := 1, 2, 3, 4;
    var rows, cols := [3, 7], [4, 6];
    v := Validator.Validate(a, rows, cols);
    assert RowPrefix(a, 0, 1) == 1;
    assert RowPrefix(a, 0, 2) == 3;
    assert RowPrefix(a, 1, 1) == 3;
    assert RowPrefix(a, 1, 2) == 7;
    assert ColPrefix(a, 0, 1) == 1;
    assert ColPrefix(a, 0, 2) == 4;
    assert ColPrefix(a, 1, 1) == 2;
    assert ColPrefix(a, 1, 2) == 6;
    assert !RowOverflows(a, rows, 0) && !RowOverflows(a, rows, 1);
    assert !ColOverflows(a, cols, 0) && !ColOverflows(a, cols, 1);
  }

  /** The 1 by 1 grid [[9]] overflows the target 5, and the constructor
      rejects it as an initial grid. */
  method OverflowExample() returns (v: Validation, r: Result<PuzzleSolver.Solver, PuzzleSolver.Error>)
    ensures v == Overflow
    ensures r == Failure(PuzzleSolver.InvalidArgument)
  {
    var a := new int[1, 1];
    a[0, 0] := 9;
    v := Validator.Validate(a, [5], [5]);
    assert RowPrefix(a, 0, 1) == 9;
    assert RowOverflows(a, [5], 0);
    r := PuzzleSolver.New(Some([5]), Some([5]), Some(a));
  }

  /** Without an initial grid, targets [3, 7] and [4, 6] give a 2 by 2 grid of
      zeros, which is an underflow. */
  method EmptyStartExample() returns (r: Result<PuzzleSolver.Solver, PuzzleSolver.Error>, v: Validation)
    ensures r.Success? && r.value.size == 2
    ensures v == Underflow
  {
    var rows, cols := [3, 7], [4, 6];
    assert AllNonNegative(rows) && AllNonNegative(cols);
    r := PuzzleSolver.New(Some(rows), Some(cols), None);
    var p := r.value.puzzle;
    v := Validator.Validate(p, rows, cols);
    ClassificationLemmas.AllZeroClassification(p, rows, cols);
    assert rows[0] > 0;
  }

  /** The length and sign checks run before the validator, so an initial
      grid larger than the targets is rejected without being scanned. */
  method GuardOrderExample() returns (r1: Result<PuzzleSolver.Solver, PuzzleSolver.Error>, r2: Result<PuzzleSolver.Solver, PuzzleSolver.Error>)
    ensures r1 == Failure(PuzzleSolver.InvalidArgument)
    ensures r2 == Failure(PuzzleSolver.InvalidArgument)
  {
    var a := new int[2, 2];
    r1 := PuzzleSolver.New(Some([1]), Some([1, 2]), Some(a));
    var b := new int[3, 3];
    var rows := [-1, 0];
    assert !AllNonNegative(rows) by { assert rows[0] < 0; }
    r2 := PuzzleSolver.New(Some(rows), Some([0, 0]), Some(b));
  }
}
