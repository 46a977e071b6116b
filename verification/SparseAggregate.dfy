/** The per-row sparse contributions gathered by Booster::PredictSparse, seen by rows and by columns. */
module SparseAggregate {
  import opened SparseLayout

  /** `agg[row][matrix]` maps an output column to its value; the key order is not specified. */
  type Aggregate<V> = seq<seq<map<int, V>>>

  /** Every row has one map per matrix. */
  ghost predicate HasMatrices<V>(agg: Aggregate<V>, numMatrices: nat) {
    forall i | 0 <= i < |agg| :: |agg[i]| == numMatrices
  }

  /** Columns lie in [0, ncol]; ncol is the bias column. */
  ghost predicate ColumnsInRange<V>(agg: Aggregate<V>, ncol: nat) {
    forall i: int, m: int, c: int | c in Cell(agg, i, m) :: 0 <= c <= ncol
  }

  /** The entries row `i` contributes to matrix `m`; none outside the aggregate. */
  function Cell<V>(agg: Aggregate<V>, i: int, m: int): map<int, V> {
    if 0 <= i < |agg| && 0 <= m < |agg[i]| then agg[i][m] else map[]
  }

  /** The entries of column `c` of matrix `m` in the first `n` rows, as (row, value) pairs in row order. */
  function Column<V>(agg: Aggregate<V>, m: nat, c: int, n: nat): seq<(int, V)> {
    if n == 0 then []
    else Column(agg, m, c, n - 1) + if c in Cell(agg, n - 1, m) then [(n - 1, Cell(agg, n - 1, m)[c])] else []
  }

  /** Columns [0, k) of matrix `m`. */
  ghost function FirstColumns<V>(agg: Aggregate<V>, m: nat, k: nat): (s: seq<seq<(int, V)>>)
    ensures |s| == k && forall c {:trigger s[c]} | 0 <= c < k :: s[c] == Column(agg, m, c, |agg|)
  {
    if k == 0 then [] else FirstColumns(agg, m, k - 1) + [Column(agg, m, k - 1, |agg|)]
  }

  ghost function Columns<V>(agg: Aggregate<V>, m: nat, ncol: nat): seq<seq<(int, V)>> {
    FirstColumns(agg, m, ncol + 1)
  }

  /** Sizes of columns [0, k) of matrix `m` in the first `n` rows. */
  ghost function FirstColumnSizes<V>(agg: Aggregate<V>, m: nat, k: nat, n: nat): (s: seq<nat>)
    ensures |s| == k && forall c {:trigger s[c]} | 0 <= c < k :: s[c] == |Column(agg, m, c, n)|
  {
    if k == 0 then [] else FirstColumnSizes(agg, m, k - 1, n) + [|Column(agg, m, k - 1, n)|]
  }

  ghost function ColumnLine<V>(agg: Aggregate<V>, m: nat, ncol: nat, n: nat): seq<nat> {
    FirstColumnSizes(agg, m, ncol + 1, n)
  }

  ghost function ColumnSizes<V>(agg: Aggregate<V>, numMatrices: nat, ncol: nat): (z: Sizes)
    ensures |z| == numMatrices
    ensures forall m: nat {:trigger z[m]} | m < numMatrices :: z[m] == ColumnLine(agg, m, ncol, |agg|)
  {
    if numMatrices == 0 then []
    else ColumnSizes(agg, numMatrices - 1, ncol) + [ColumnLine(agg, numMatrices - 1, ncol, |agg|)]
  }

  /** The first `n` rows of matrix `m`. */
  ghost function FirstMatrixRows<V>(agg: Aggregate<V>, m: nat, n: nat): (s: seq<map<int, V>>)
    ensures |s| == n && forall i {:trigger s[i]} | 0 <= i < n :: s[i] == Cell(agg, i, m)
  {
    if n == 0 then [] else FirstMatrixRows(agg, m, n - 1) + [Cell(agg, n - 1, m)]
  }

  ghost function MatrixRows<V>(agg: Aggregate<V>, m: nat): seq<map<int, V>> {
    FirstMatrixRows(agg, m, |agg|)
  }

  ghost function FirstRowSizes<V>(agg: Aggregate<V>, m: nat, n: nat): (s: seq<nat>)
    ensures |s| == n && forall i {:trigger s[i]} | 0 <= i < n :: s[i] == |Cell(agg, i, m)|
  {
    if n == 0 then [] else FirstRowSizes(agg, m, n - 1) + [|Cell(agg, n - 1, m)|]
  }

  ghost function RowLine<V>(agg: Aggregate<V>, m: nat): seq<nat> {
    FirstRowSizes(agg, m, |agg|)
  }

  ghost function RowSizes<V>(agg: Aggregate<V>, numMatrices: nat): (z: Sizes)
    ensures |z| == numMatrices && forall m: nat {:trigger z[m]} | m < numMatrices :: z[m] == RowLine(agg, m)
  {
    if numMatrices == 0 then [] else RowSizes(agg, numMatrices - 1) + [RowLine(agg, numMatrices - 1)]
  }

  /** A column lists exactly the rows that contain it, each once, in strictly ascending row order. */
  lemma {:induction false} ColumnEntries<V>(agg: Aggregate<V>, m: nat, c: int, n: nat)
    ensures forall k | 0 <= k < |Column(agg, m, c, n)| :: var e := Column(agg, m, c, n)[k];
              0 <= e.0 < n && c in Cell(agg, e.0, m) && Cell(agg, e.0, m)[c] == e.1
    ensures forall k, l | 0 <= k < l < |Column(agg, m, c, n)| ::
              Column(agg, m, c, n)[k].0 < Column(agg, m, c, n)[l].0
  {
    if n > 0 {
      ColumnEntries(agg, m, c, n - 1);
    }
  }

  lemma {:induction false} ColumnRank<V>(agg: Aggregate<V>, m: nat, c: int, n: nat, i: nat)
    requires i < n && c in Cell(agg, i, m)
    ensures |Column(agg, m, c, i)| < |Column(agg, m, c, n)|
    ensures Column(agg, m, c, n)[|Column(agg, m, c, i)|] == (i, Cell(agg, i, m)[c])
  {
    if i < n - 1 {
      ColumnRank(agg, m, c, n - 1, i);
    }
  }

  ghost function KeysBelow<V>(row: map<int, V>, c: nat): set<int> {
    set k | k in row.Keys && 0 <= k < c
  }

  lemma KeysBelowNext<V>(row: map<int, V>, c: nat)
    ensures |KeysBelow(row, c + 1)| == |KeysBelow(row, c)| + if c in row then 1 else 0
  {
    if c in row {
      assert KeysBelow(row, c + 1) == KeysBelow(row, c) + {c};
    } else {
      assert KeysBelow(row, c + 1) == KeysBelow(row, c);
    }
  }

  /** Adding one row adds one entry for each of its keys. */
  lemma {:induction false} AddRowToColumns<V>(agg: Aggregate<V>, m: nat, ncol: nat, n: nat, c: nat)
    requires c <= ncol + 1
    ensures PrefixSum(ColumnLine(agg, m, ncol, n + 1), c)
            == PrefixSum(ColumnLine(agg, m, ncol, n), c) + |KeysBelow(Cell(agg, n, m), c)|
  {
    var row := Cell(agg, n, m);
    if c == 0 {
      assert KeysBelow(row, 0) == {};
    } else {
      AddRowToColumns(agg, m, ncol, n, c - 1);
      KeysBelowNext(row, c - 1);
    }
  }

  lemma {:induction false} NoRowsNoColumns<V>(agg: Aggregate<V>, m: nat, ncol: nat, c: nat)
    requires c <= ncol + 1
    ensures PrefixSum(ColumnLine(agg, m, ncol, 0), c) == 0
  {
    if c > 0 {
      NoRowsNoColumns(agg, m, ncol, c - 1);
    }
  }

  /** Counting a matrix by columns and by rows gives the same total. */
  lemma {:induction false} ColumnsEqualRows<V>(agg: Aggregate<V>, m: nat, ncol: nat, n: nat)
    requires ColumnsInRange(agg, ncol) && n <= |agg|
    ensures PrefixSum(ColumnLine(agg, m, ncol, n), ncol + 1) == PrefixSum(RowLine(agg, m), n)
  {
    if n == 0 {
      NoRowsNoColumns(agg, m, ncol, ncol + 1);
    } else {
      ColumnsEqualRows(agg, m, ncol, n - 1);
      AddRowToColumns(agg, m, ncol, n - 1, ncol + 1);
      assert KeysBelow(Cell(agg, n - 1, m), ncol + 1) == Cell(agg, n - 1, m).Keys;
    }
  }

  lemma SameTotals<V>(agg: Aggregate<V>, numMatrices: nat, ncol: nat, m: nat)
    requires ColumnsInRange(agg, ncol) && m < numMatrices
    ensures PrefixSum(ColumnSizes(agg, numMatrices, ncol)[m], ncol + 1)
            == PrefixSum(RowSizes(agg, numMatrices)[m], |agg|)
  {
    ColumnsEqualRows(agg, m, ncol, |agg|);
  }

  /** Layouts whose matrices have equal totals place them alike. */
  lemma {:induction false} SameStarts(y: Sizes, z: Sizes, m: nat)
    requires m <= |y| && m <= |z|
    requires forall i {:trigger y[i]} | 0 <= i < m :: PrefixSum(y[i], |y[i]|) == PrefixSum(z[i], |z[i]|)
    ensures MatrixStart(y, m) == MatrixStart(z, m)
  {
    if m > 0 {
      SameStarts(y, z, m - 1);
      assert PrefixSum(y[m - 1], |y[m - 1]|) == PrefixSum(z[m - 1], |z[m - 1]|);
    }
  }

  lemma SameMatrixStarts<V>(agg: Aggregate<V>, numMatrices: nat, ncol: nat, m: nat)
    requires ColumnsInRange(agg, ncol) && m <= numMatrices
    ensures MatrixStart(ColumnSizes(agg, numMatrices, ncol), m) == MatrixStart(RowSizes(agg, numMatrices), m)
  {
    var y, z := ColumnSizes(agg, numMatrices, ncol), RowSizes(agg, numMatrices);
    forall i {:trigger y[i]} | 0 <= i < m
      ensures PrefixSum(y[i], |y[i]|) == PrefixSum(z[i], |z[i]|)
    {
      SameTotals(agg, numMatrices, ncol, i);
    }
    SameStarts(y, z, m);
  }

  /** The size both output buffers are allocated with, counted row by row. */
  method CountElements<V>(agg: Aggregate<V>, numMatrices: nat) returns (elementsSize: nat)
    requires HasMatrices(agg, numMatrices)
    ensures elementsSize == MatrixStart(RowSizes(agg, numMatrices), numMatrices)
  {
    elementsSize := 0;
    ghost var z := RowSizes(agg, numMatrices);
    CrossSumNone(z, numMatrices);
    for i := 0 to |agg|
      invariant elementsSize == CrossSum(z, numMatrices, i)
    {
      for j := 0 to |agg[i]|
        invariant elementsSize == CrossSum(z, numMatrices, i) + LineSum(z, j, i)
      {
        elementsSize := elementsSize + |agg[i][j]|;
      }
      CrossSumAddLine(z, numMatrices, i);
    }
    CrossSumAll(z, numMatrices, |agg|);
  }
}
