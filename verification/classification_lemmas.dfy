/** Properties of the classification that the validator computes. */
module ClassificationLemmas {
  import opened GridSums

  /** Every cell of `a` is zero. */
  predicate AllZero(a: array2<int>)
    reads a
  {
    forall i, j :: 0 <= i < a.Length0 && 0 <= j < a.Length1 ==> a[i, j] == 0
  }

  /** Every cell of `a` is non-negative. */
  predicate AllNonNegativeCells(a: array2<int>)
    reads a
  {
    forall i, j :: 0 <= i < a.Length0 && 0 <= j < a.Length1 ==> a[i, j] >= 0
  }

  /** `b` is the transpose of `a`. */
  predicate IsTranspose(a: array2<int>, b: array2<int>)
    reads a, b
  {
    b.Length0 == a.Length1 && b.Length1 == a.Length0 &&
    forall i, j :: 0 <= i < a.Length0 && 0 <= j < a.Length1 ==> b[j, i] == a[i, j]
  }

  lemma {:induction false} ZeroRowPrefix(a: array2<int>, r: nat, k: nat)
    requires AllZero(a) && r < a.Length0 && k <= a.Length1
    ensures RowPrefix(a, r, k) == 0
  {
    if k > 0 {
      ZeroRowPrefix(a, r, k - 1);
    }
  }

  lemma {:induction false} ZeroColPrefix(a: array2<int>, c: nat, k: nat)
    requires AllZero(a) && c < a.Length1 && k <= a.Length0
    ensures ColPrefix(a, c, k) == 0
  {
    if k > 0 {
      ZeroColPrefix(a, c, k - 1);
    }
  }

  /** On an all-zero grid whose dimensions match the non-negative targets,
      nothing overflows, and the grid is exact precisely when every target is
      zero; otherwise it is an underflow. */
  lemma AllZeroClassification(a: array2<int>, sumRows: seq<int>, sumCols: seq<int>)
    requires AllZero(a)
    requires a.Length0 == |sumRows| && a.Length1 == |sumCols|
    requires AllNonNegative(sumRows) && AllNonNegative(sumCols)
    ensures Classify(a, sumRows, sumCols) != Overflow
    ensures Classify(a, sumRows, sumCols) == Exact <==>
      (forall r :: 0 <= r < |sumRows| ==> sumRows[r] == 0) &&
      (forall c :: 0 <= c < |sumCols| ==> sumCols[c] == 0)
    ensures Classify(a, sumRows, sumCols) == Underflow <==>
      (exists r :: 0 <= r < |sumRows| && sumRows[r] > 0) ||
      (exists c :: 0 <= c < |sumCols| && sumCols[c] > 0)
  {
    forall r, k | 0 <= r < a.Length0 && 0 <= k <= a.Length1
      ensures RowPrefix(a, r, k) == 0
    {
      ZeroRowPrefix(a, r, k);
    }
    forall c, k | 0 <= c < a.Length1 && 0 <= k <= a.Length0
      ensures ColPrefix(a, c, k) == 0
    {
      ZeroColPrefix(a, c, k);
    }
  }

  /** Without overflow, every total is at most its target: the total is the
      longest prefix, or zero for an empty line. */
  lemma NoOverflowBoundsTotals(a: array2<int>, sumRows: seq<int>, sumCols: seq<int>)
    requires Fits(a, sumRows, sumCols)
    requires AllNonNegative(sumRows) && AllNonNegative(sumCols)
    requires !Overflows(a, sumRows, sumCols)
    ensures forall r :: 0 <= r < a.Length0 ==> RowTotal(a, r) <= sumRows[r]
    ensures forall c :: 0 <= c < a.Length1 ==> ColTotal(a, c) <= sumCols[c]
  {
    forall r | 0 <= r < a.Length0
      ensures RowTotal(a, r) <= sumRows[r]
    {
      assert !RowOverflows(a, sumRows, r);
    }
    forall c | 0 <= c < a.Length1
      ensures ColTotal(a, c) <= sumCols[c]
    {
      assert !ColOverflows(a, sumCols, c);
    }
  }

  /** With non-negative targets, a grid is exact precisely when nothing
      overflows and every row and column total equals its target. */
  lemma ExactIffTotalsMatch(a: array2<int>, sumRows: seq<int>, sumCols: seq<int>)
    requires Fits(a, sumRows, sumCols)
    requires AllNonNegative(sumRows) && AllNonNegative(sumCols)
    ensures Classify(a, sumRows, sumCols) == Exact <==>
      !Overflows(a, sumRows, sumCols) &&
      (forall r :: 0 <= r < a.Length0 ==> RowTotal(a, r) == sumRows[r]) &&
      (forall c :: 0 <= c < a.Length1 ==> ColTotal(a, c) == sumCols[c])
  {
    if !Overflows(a, sumRows, sumCols) {
      NoOverflowBoundsTotals(a, sumRows, sumCols);
    }
  }

  lemma {:induction false} RowPrefixMonotone(a: array2<int>, r: nat, k: nat, j: nat)
    requires AllNonNegativeCells(a) && r < a.Length0 && k <= j <= a.Length1
    ensures RowPrefix(a, r, k) <= RowPrefix(a, r, j)
    decreases j - k
  {
    if k < j {
      RowPrefixMonotone(a, r, k + 1, j);
    }
  }

  lemma {:induction false} ColPrefixMonotone(a: array2<int>, c: nat, k: nat, j: nat)
    requires AllNonNegativeCells(a) && c < a.Length1 && k <= j <= a.Length0
    ensures ColPrefix(a, c, k) <= ColPrefix(a, c, j)
    decreases j - k
  {
    if k < j {
      ColPrefixMonotone(a, c, k + 1, j);
    }
  }

  /** When no cell is negative and no target is negative, a grid overflows
      precisely when some row or column total exceeds its target. */
  lemma OverflowIffTotalExceeds(a: array2<int>, sumRows: seq<int>, sumCols: seq<int>)
    requires Fits(a, sumRows, sumCols)
    requires AllNonNegativeCells(a)
    requires AllNonNegative(sumRows) && AllNonNegative(sumCols)
    ensures Overflows(a, sumRows, sumCols) <==>
      (exists r :: 0 <= r < a.Length0 && RowTotal(a, r) > sumRows[r]) ||
      (exists c :: 0 <= c < a.Length1 && ColTotal(a, c) > sumCols[c])
  {
    if Overflows(a, sumRows, sumCols) {
      if r :| 0 <= r < a.Length0 && RowOverflows(a, sumRows, r) {
        var k :| 1 <= k <= a.Length1 && RowPrefix(a, r, k) > sumRows[r];
        RowPrefixMonotone(a, r, k, a.Length1);
      } else {
        var c :| 0 <= c < a.Length1 && ColOverflows(a, sumCols, c);
        var k :| 1 <= k <= a.Length0 && ColPrefix(a, c, k) > sumCols[c];
        ColPrefixMonotone(a, c, k, a.Length0);
      }
    } else {
      NoOverflowBoundsTotals(a, sumRows, sumCols);
    }
  }

  /** A negative cell can hide an overflowing prefix: the row [5, -5] with
      target 3 overflows although its total, 0, is below the target. */
  lemma NegativeCellOverflowsBelowTotal(a: array2<int>)
    requires a.Length0 == 1 && a.Length1 == 2
    requires a[0, 0] == 5 && a[0, 1] == -5
    ensures Classify(a, [3], [5, 0]) == Overflow
    ensures RowTotal(a, 0) < 3
  {
    assert RowPrefix(a, 0, 1) == 5;
    assert RowOverflows(a, [3], 0);
  }

  lemma {:induction false} TransposePrefix(a: array2<int>, b: array2<int>, r: nat, k: nat)
    requires IsTranspose(a, b) && r < a.Length0 && k <= a.Length1
    ensures ColPrefix(b, r, k) == RowPrefix(a, r, k)
  {
    if k > 0 {
      TransposePrefix(a, b, r, k - 1);
    }
  }

  lemma {:induction false} TransposePrefixCol(a: array2<int>, b: array2<int>, c: nat, k: nat)
    requires IsTranspose(a, b) && c < a.Length1 && k <= a.Length0
    ensures RowPrefix(b, c, k) == ColPrefix(a, c, k)
  {
    if k > 0 {
      TransposePrefixCol(a, b, c, k - 1);
    }
  }

  /** Scanning rows before columns does not decide the classification:
      classifying the transposed grid against swapped targets (a scan of the
      original's columns first) gives the same value. */
  lemma ClassifyTransposeInvariant(a: array2<int>, b: array2<int>, sumRows: seq<int>, sumCols: seq<int>)
    requires Fits(a, sumRows, sumCols)
    requires IsTranspose(a, b)
    ensures Fits(b, sumCols, sumRows)
    ensures Classify(b, sumCols, sumRows) == Classify(a, sumRows, sumCols)
  {
    forall r, k | 0 <= r < a.Length0 && 0 <= k <= a.Length1
      ensures ColPrefix(b, r, k) == RowPrefix(a, r, k)
    {
      TransposePrefix(a, b, r, k);
    }
    forall c, k | 0 <= c < a.Length1 && 0 <= k <= a.Length0
      ensures RowPrefix(b, c, k) == ColPrefix(a, c, k)
    {
      TransposePrefixCol(a, b, c, k);
    }
    assert Overflows(b, sumCols, sumRows) <==> Overflows(a, sumRows, sumCols) by {
      assert forall r :: 0 <= r < a.Length0 ==> (ColOverflows(b, sumRows, r) <==> RowOverflows(a, sumRows, r));
      assert forall c :: 0 <= c < a.Length1 ==> (RowOverflows(b, sumCols, c) <==> ColOverflows(a, sumCols, c));
    }
    assert Short(b, sumCols, sumRows) <==> Short(a, sumRows, sumCols) by {
      assert forall r :: 0 <= r < a.Length0 ==> ColTotal(b, r) == RowTotal(a, r);
      assert forall c :: 0 <= c < a.Length1 ==> RowTotal(b, c) == ColTotal(a, c);
    }
  }
}
