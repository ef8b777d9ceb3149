/** The validator: scans every row and then every column with a running sum,
    stopping at the first prefix that exceeds its target. */
module Validator {
  import opened GridSums

  /** Classifies `a` against the targets. The method has no `modifies`
      clause, so it leaves the grid untouched; targets are values. */
  method Validate(a: array2<int>, sumRows: seq<int>, sumCols: seq<int>) returns (v: Validation)
    requires Fits(a, sumRows, sumCols)
    ensures v == Overflow <==> Overflows(a, sumRows, sumCols)
    ensures v == Exact <==> !Overflows(a, sumRows, sumCols) && !Short(a, sumRows, sumCols)
    ensures v == Underflow <==> !Overflows(a, sumRows, sumCols) && Short(a, sumRows, sumCols)
    ensures v == Classify(a, sumRows, sumCols)
  {
    var isExact := true;
    var row := 0;
    while row < a.Length0
      invariant 0 <= row <= a.Length0
      invariant forall r :: 0 <= r < row ==> !RowOverflows(a, sumRows, r)
      invariant isExact <==> forall r :: 0 <= r < row ==> RowTotal(a, r) >= sumRows[r]
    {
      var sum := 0;
      var col := 0;
      while col < a.Length1
        invariant 0 <= col <= a.Length1
        invariant sum == RowPrefix(a, row, col)
        invariant forall k :: 1 <= k <= col ==> RowPrefix(a, row, k) <= sumRows[row]
      {
        sum := sum + a[row, col];
        if sum > sumRows[row] {
          assert RowPrefix(a, row, col + 1) > sumRows[row];
          assert RowOverflows(a, sumRows, row);
          return Overflow;
        }
        col := col + 1;
      }
      if sum < sumRows[row] {
        isExact := false;
      }
      row := row + 1;
    }

    var col := 0;
    while col < a.Length1
      invariant 0 <= col <= a.Length1
      invariant forall r :: 0 <= r < a.Length0 ==> !RowOverflows(a, sumRows, r)
      invariant forall c :: 0 <= c < col ==> !ColOverflows(a, sumCols, c)
      invariant isExact <==>
        (forall r :: 0 <= r < a.Length0 ==> RowTotal(a, r) >= sumRows[r]) &&
        (forall c :: 0 <= c < col ==> ColTotal(a, c) >= sumCols[c])
    {
      var sum := 0;
      var row := 0;
      while row < a.Length0
        invariant 0 <= row <= a.Length0
        invariant sum == ColPrefix(a, col, row)
        invariant forall k :: 1 <= k <= row ==> ColPrefix(a, col, k) <= sumCols[col]
      {
        sum := sum + a[row, col];
        if sum > sumCols[col] {
          assert ColPrefix(a, col, row + 1) > sumCols[col];
          assert ColOverflows(a, sumCols, col);
          return Overflow;
        }
        row := row + 1;
      }
      if sum < sumCols[col] {
        isExact := false;
      }
      col := col + 1;
    }

    v := if isExact then Exact else Underflow;
  }
}
