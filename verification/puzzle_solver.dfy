/** Construction of a puzzle solver: an ordered sequence of argument checks,
    then the solver's state with its own copy of the grid. */
module PuzzleSolver {
  import opened Wrappers
  import opened GridSums
  import Validator

  /** The two kinds of argument error the constructor raises. The source's
      null-argument error is a special case of its invalid-argument error;
      here they are simply distinct. */
  datatype Error = ArgumentNull | InvalidArgument

  /** The state of a constructed solver. */
  datatype Solver = Solver(size: nat, sumRows: seq<int>, sumCols: seq<int>, puzzle: array2<int>)

  /** Raises `error` exactly when `condition` does not hold. */
  function Check(condition: bool, error: Error): (o: Outcome<Error>)
    ensures o == Pass <==> condition
    ensures o.Fail? ==> o.error == error
  {
    if condition then Pass else Fail(error)
  }

  /** `m` has the dimensions and the contents of `a`. */
  predicate SameContents(m: array2<int>, a: array2<int>)
    reads m, a
  {
    m.Length0 == a.Length0 && m.Length1 == a.Length1 &&
    forall i, j :: 0 <= i < a.Length0 && 0 <= j < a.Length1 ==> m[i, j] == a[i, j]
  }

  /** `m` is a `size` by `size` grid of zeros. */
  predicate ZeroSquare(m: array2<int>, size: nat)
    reads m
  {
    m.Length0 == size && m.Length1 == size &&
    forall i, j :: 0 <= i < size && 0 <= j < size ==> m[i, j] == 0
  }

  /** Once the checks before the validator have passed (both target arrays
      present, of equal length, with no negative target), a supplied initial
      grid has no more rows than there are row targets and no more columns
      than there are column targets. The source does not check this; the
      validator indexes the target arrays by grid position. */
  predicate InitialFits(sumRows: Option<seq<int>>, sumCols: Option<seq<int>>, initialPuzzle: Option<array2<int>>)
  {
    sumRows.Some? && sumCols.Some? && initialPuzzle.Some? &&
    |sumRows.value| == |sumCols.value| &&
    AllNonNegative(sumRows.value) && AllNonNegative(sumCols.value) ==>
      initialPuzzle.value.Length0 <= |sumRows.value| &&
      initialPuzzle.value.Length1 <= |sumCols.value|
  }

  /** The invalid-argument checks, in the constructor's order: the target
      arrays differ in length, a target is negative, or the initial grid
      already overflows. */
  predicate Rejects(sumRows: seq<int>, sumCols: seq<int>, initialPuzzle: Option<array2<int>>)
    reads if initialPuzzle.Some? then {initialPuzzle.value} else {}
    requires InitialFits(Some(sumRows), Some(sumCols), initialPuzzle)
  {
    |sumRows| != |sumCols| ||
    !AllNonNegative(sumRows) ||
    !AllNonNegative(sumCols) ||
    (initialPuzzle.Some? && Overflows(initialPuzzle.value, sumRows, sumCols))
  }

  /** A fresh grid: a copy of the initial grid when one is given, otherwise a
      `size` by `size` grid of zeros. The caller's grid is never shared. */
  method InitializeMatrix(initialPuzzle: Option<array2<int>>, size: nat) returns (m: array2<int>)
    ensures fresh(m)
    ensures initialPuzzle.None? ==> ZeroSquare(m, size)
    ensures initialPuzzle.Some? ==> SameContents(m, initialPuzzle.value) && m != initialPuzzle.value
  {
    if initialPuzzle.Some? {
      var a := initialPuzzle.value;
      m := new int[a.Length0, a.Length1]((i, j) reads a => if 0 <= i < a.Length0 && 0 <= j < a.Length1 then a[i, j] else 0);
      return;
    }
    m := new int[size, size]((i, j) => 0);
  }

  /** Runs the constructor's checks in order and, when all pass, builds the
      solver's state. A missing target array is a null-argument error; unequal
      lengths, a negative target or an initial grid that already overflows
      are invalid-argument errors. */
  method New(sumRows: Option<seq<int>>, sumCols: Option<seq<int>>, initialPuzzle: Option<array2<int>>)
    returns (r: Result<Solver, Error>)
    requires InitialFits(sumRows, sumCols, initialPuzzle)
    ensures r == Failure(ArgumentNull) <==> sumRows.None? || sumCols.None?
    ensures r == Failure(InvalidArgument) <==>
      sumRows.Some? && sumCols.Some? && Rejects(sumRows.value, sumCols.value, initialPuzzle)
    ensures r.Success? <==>
      sumRows.Some? && sumCols.Some? && !Rejects(sumRows.value, sumCols.value, initialPuzzle)
    ensures r.Success? ==> fresh(r.value.puzzle)
    ensures r.Success? ==>
      sumRows.Some? && sumCols.Some? &&
      r.value.size == |sumRows.value| == |sumCols.value| &&
      r.value.sumRows == sumRows.value && r.value.sumCols == sumCols.value &&
      (initialPuzzle.None? ==> ZeroSquare(r.value.puzzle, r.value.size)) &&
      (initialPuzzle.Some? ==>
         SameContents(r.value.puzzle, initialPuzzle.value) &&
         r.value.puzzle != initialPuzzle.value &&
         !Overflows(r.value.puzzle, sumRows.value, sumCols.value))
  {
    var acceptable := true;  // the initial grid, if any, does not overflow
    :- Check(sumRows.Some?, ArgumentNull);
    :- Check(sumCols.Some?, ArgumentNull);
    var rows, cols := sumRows.value, sumCols.value;
    :- Check(|rows| == |cols|, InvalidArgument);
    :- Check(AllNonNegative(rows), InvalidArgument);
    :- Check(AllNonNegative(cols), InvalidArgument);
    if initialPuzzle.Some? {
      var v := Validator.Validate(initialPuzzle.value, rows, cols);
      acceptable := v != Overflow;
    }
    :- Check(acceptable, InvalidArgument);

    var size := |rows|;
    var puzzle := InitializeMatrix(initialPuzzle, size);
    if initialPuzzle.Some? {
      CopyPreservesOverflow(initialPuzzle.value, puzzle, rows, cols);
    }
    r := Success(Solver(size, rows, cols, puzzle));
  }

  lemma {:induction false} CopyPreservesPrefixes(a: array2<int>, m: array2<int>, i: nat, k: nat)
    requires SameContents(m, a)
    ensures i < a.Length0 && k <= a.Length1 ==> RowPrefix(m, i, k) == RowPrefix(a, i, k)
    ensures i < a.Length1 && k <= a.Length0 ==> ColPrefix(m, i, k) == ColPrefix(a, i, k)
  {
    if k > 0 {
      CopyPreservesPrefixes(a, m, i, k - 1);
    }
  }

  /** A grid with the same contents classifies the same way, so the solver's
      copy of an accepted initial grid does not overflow either. */
  lemma CopyPreservesOverflow(a: array2<int>, m: array2<int>, sumRows: seq<int>, sumCols: seq<int>)
    requires SameContents(m, a) && Fits(a, sumRows, sumCols)
    ensures Fits(m, sumRows, sumCols)
    ensures Classify(m, sumRows, sumCols) == Classify(a, sumRows, sumCols)
  {
    forall i, k | 0 <= i && 0 <= k
      ensures i < a.Length0 && k <= a.Length1 ==> RowPrefix(m, i, k) == RowPrefix(a, i, k)
      ensures i < a.Length1 && k <= a.Length0 ==> ColPrefix(m, i, k) == ColPrefix(a, i, k)
    {
      CopyPreservesPrefixes(a, m, i, k);
    }
    assert Overflows(m, sumRows, sumCols) <==> Overflows(a, sumRows, sumCols) by {
      assert forall r :: 0 <= r < a.Length0 ==> (RowOverflows(m, sumRows, r) <==> RowOverflows(a, sumRows, r));
      assert forall c :: 0 <= c < a.Length1 ==> (ColOverflows(m, sumCols, c) <==> ColOverflows(a, sumCols, c));
    }
    assert Short(m, sumRows, sumCols) <==> Short(a, sumRows, sumCols) by {
      assert forall r :: 0 <= r < a.Length0 ==> RowTotal(m, r) == RowTotal(a, r);
      assert forall c :: 0 <= c < a.Length1 ==> ColTotal(m, c) == ColTotal(a, c);
    }
  }
}
