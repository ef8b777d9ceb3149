/** Row and column prefix sums of a grid, and the order-independent
    definition of how a grid classifies against its row and column targets. */
module GridSums {

  /** The three classifications of a grid against its targets. */
  datatype Validation = Underflow | Exact | Overflow

  /** The grid indexes its targets by position: every grid row has a row
      target and every grid column has a column target. */
  predicate Fits(a: array2<int>, sumRows: seq<int>, sumCols: seq<int>)
  {
    a.Length0 <= |sumRows| && a.Length1 <= |sumCols|
  }

  /** Every target is non-negative. */
  predicate AllNonNegative(s: seq<int>)
  {
    forall i :: 0 <= i < |s| ==> s[i] >= 0
  }

  /** Sum of the first `k` cells of row `r`. */
  function RowPrefix(a: array2<int>, r: nat, k: nat): int
    reads a
    requires r < a.Length0 && k <= a.Length1
  {
    if k == 0 then 0 else RowPrefix(a, r, k - 1) + a[r, k - 1]
  }

  /** Sum of the first `k` cells of column `c`. */
  function ColPrefix(a: array2<int>, c: nat, k: nat): int
    reads a
    requires c < a.Length1 && k <= a.Length0
  {
    if k == 0 then 0 else ColPrefix(a, c, k - 1) + a[k - 1, c]
  }

  /** Sum of the whole of row `r`. */
  function RowTotal(a: array2<int>, r: nat): int
    reads a
    requires r < a.Length0
  {
    RowPrefix(a, r, a.Length1)
  }

  /** Sum of the whole of column `c`. */
  function ColTotal(a: array2<int>, c: nat): int
    reads a
    requires c < a.Length1
  {
    ColPrefix(a, c, a.Length0)
  }

  /** Some non-empty prefix of row `r` exceeds the row's target. Cells may be
      negative, so this is not the same as the total exceeding it. */
  predicate RowOverflows(a: array2<int>, sumRows: seq<int>, r: nat)
    reads a
    requires r < a.Length0 && r < |sumRows|
  {
    exists k :: 1 <= k <= a.Length1 && RowPrefix(a, r, k) > sumRows[r]
  }

  /** Some non-empty prefix of column `c` exceeds the column's target. */
  predicate ColOverflows(a: array2<int>, sumCols: seq<int>, c: nat)
    reads a
    requires c < a.Length1 && c < |sumCols|
  {
    exists k :: 1 <= k <= a.Length0 && ColPrefix(a, c, k) > sumCols[c]
  }

  /** Some row or some column overflows. */
  predicate Overflows(a: array2<int>, sumRows: seq<int>, sumCols: seq<int>)
    reads a
    requires Fits(a, sumRows, sumCols)
  {
    (exists r :: 0 <= r < a.Length0 && RowOverflows(a, sumRows, r)) ||
    (exists c :: 0 <= c < a.Length1 && ColOverflows(a, sumCols, c))
  }

  /** Some row total or some column total is strictly below its target. */
  predicate Short(a: array2<int>, sumRows: seq<int>, sumCols: seq<int>)
    reads a
    requires Fits(a, sumRows, sumCols)
  {
    (exists r :: 0 <= r < a.Length0 && RowTotal(a, r) < sumRows[r]) ||
    (exists c :: 0 <= c < a.Length1 && ColTotal(a, c) < sumCols[c])
  }

  /** The classification of a grid, defined without reference to the order in
      which rows and columns are scanned: overflow wins, then a short total. */
  function Classify(a: array2<int>, sumRows: seq<int>, sumCols: seq<int>): Validation
    reads a
    requires Fits(a, sumRows, sumCols)
  {
    if Overflows(a, sumRows, sumCols) then Overflow
    else if Short(a, sumRows, sumCols) then Underflow
    else Exact
  }
}
