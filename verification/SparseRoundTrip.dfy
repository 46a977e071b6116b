/** Both sparse outputs, read back from their arrays alone, give the aggregate; so the CSR matrices are the CSC ones. */
module SparseRoundTrip {
  import opened Blocks
  import opened SparseAggregate
  import opened SparseCsc
  import opened SparseCsr
  import opened SparseLayout

  /** The aggregate's element at (row, column) of matrix `m`, converted; [] when absent. */
  function Entry<V, W>(agg: Aggregate<V>, m: nat, i: nat, c: int, store: V -> W): seq<W> {
    if c in Cell(agg, i, m) then [store(Cell(agg, i, m)[c])] else []
  }

  /** Matrices 0..m fit the pointer width. */
  ghost predicate Fits(z: Sizes, m: nat, t: PtrType)
    requires m < |z|
  {
    t != Int32Ptr || forall k: nat {:trigger z[k]} | k <= m :: PrefixSum(z[k], |z[k]|) <= INT32_MAX
  }

  lemma FittingPointer(z: Sizes, m: nat, lines: nat, t: PtrType, i: nat, k: nat)
    requires m < |z| && Uniform(z, lines) && Fits(z, m, t) && i <= m && k <= lines
    ensures PtrCast(t)(PrefixSum(z[i], k)) == PrefixSum(z[i], k)
  {
    SumMonotone(z[i], k, lines);
    StorePtrExact(t, PrefixSum(z[i], k));
  }

  lemma PointerIs(z: Sizes, lines: nat, t: PtrType, m: nat, j: nat)
    requires m < |z| && j <= lines && Uniform(z, lines) && Fits(z, m, t)
    ensures PtrAt(AllPtrs(z, |z|, PtrCast(t)), lines, m, j) == PrefixSum(z[m], j)
  {
    PtrAtIs(z, lines, PtrCast(t), m, j);
    FittingPointer(z, m, lines, t, m, j);
  }

  lemma BaseIs(z: Sizes, lines: nat, t: PtrType, m: nat)
    requires m < |z| && Uniform(z, lines) && Fits(z, m, t)
    ensures ReadBase(AllPtrs(z, |z|, PtrCast(t)), lines, m) == MatrixStart(z, m)
  {
    forall i: nat | i < m
      ensures PtrCast(t)(PrefixSum(z[i], lines)) == PrefixSum(z[i], lines)
    {
      FittingPointer(z, m, lines, t, i, lines);
    }
    ReadBaseIs(z, lines, PtrCast(t), m);
  }

  /** What the reader of line `j` of matrix `m` searches. */
  lemma ReadLine<W>(z: Sizes, lines: nat, t: PtrType, indices: seq<int>, data: seq<W>, m: nat, j: nat, key: int)
    requires m < |z| && j < lines && Uniform(z, lines) && Fits(z, m, t)
    requires |indices| == |data| == MatrixStart(z, |z|)
    ensures LineStart(z[m], MatrixStart(z, m), j) + z[m][j] <= |indices|
    ensures Read(AllPtrs(z, |z|, PtrCast(t)), indices, data, lines, m, j, key)
            == Find(indices, data, LineStart(z[m], MatrixStart(z, m), j),
                    LineStart(z[m], MatrixStart(z, m), j) + z[m][j], key)
  {
    LineInMatrix(z, m, j);
    BaseIs(z, lines, t, m);
    PointerIs(z, lines, t, m, j);
    PointerIs(z, lines, t, m, j + 1);
  }

  /** Column `c` of matrix `m` is empty from row 2^31 on, so its row indices keep their values in 32 bits. */
  ghost predicate RowsFit<V>(agg: Aggregate<V>, m: nat, c: int) {
    forall i: int {:trigger agg[i]} | INT32_MAX < i < |agg| && m < |agg[i]| :: c !in agg[i][m]
  }

  /** What the aggregate holds for column `c` of matrix `m` in row `i` is what a reader of column `c` finds there. */
  lemma CscReads<V, W>(agg: Aggregate<V>, numMatrices: nat, ncol: nat, t: PtrType, colPtr: seq<int>,
                       indices: seq<int>, data: seq<W>, store: V -> W, m: nat, i: nat, c: nat)
    requires HasMatrices(agg, numMatrices) && RowsFit(agg, m, c)
    requires IsCsc(agg, numMatrices, ncol, PtrCast(t), colPtr, indices, data, store)
    requires m < numMatrices && c <= ncol && i < |agg| && Fits(ColumnSizes(agg, numMatrices, ncol), m, t)
    ensures Read(colPtr, indices, data, ncol + 1, m, c, i) == if c in agg[i][m] then [store(agg[i][m][c])] else []
  {
    var z := ColumnSizes(agg, numMatrices, ncol);
    SizedColumns(agg, z, m, ncol);
    ReadLine(z, ncol + 1, t, indices, data, m, c, i);
    ExactRows(agg, m, c);
    ColumnReads(Columns(agg, m, ncol), z, indices, data, store, m, i, c);
    LookupColumn(agg, m, c, |agg|, i, store, Lookup(Column(agg, m, c, |agg|), i, store));
  }

  lemma ExactRows<V>(agg: Aggregate<V>, m: nat, c: int)
    requires RowsFit(agg, m, c)
    ensures Exact(Column(agg, m, c, |agg|))
  {
    var column := Column(agg, m, c, |agg|);
    ColumnEntries(agg, m, c, |agg|);
    forall k | 0 <= k < |column|
      ensures ToInt32(column[k].0) == column[k].0
    {
      assert c in Cell(agg, column[k].0, m);
      ToInt32Range(column[k].0);
    }
  }

  lemma LateKeyUnread<W>(z: Sizes, lines: nat, t: PtrType, indices: seq<int>, data: seq<W>, m: nat, j: nat, key: int,
                         found: seq<W>)
    requires m < |z| && j < lines && Uniform(z, lines) && Fits(z, m, t)
    requires |indices| == |data| == MatrixStart(z, |z|)
    requires key > INT32_MAX && forall e | 0 <= e < |indices| :: indices[e] <= INT32_MAX
    requires found == Read(AllPtrs(z, |z|, PtrCast(t)), indices, data, lines, m, j, key)
    ensures found == []
  {
    var lo := LineStart(z[m], MatrixStart(z, m), j);
    ReadLine(z, lines, t, indices, data, m, j, key);
    FindNone(indices, data, lo, lo + z[m][j], key);
  }

  /** No 32-bit row index is a row from 2^31 on: a reader of that row finds nothing. */
  lemma LateRowUnread<V, W>(agg: Aggregate<V>, numMatrices: nat, ncol: nat, t: PtrType, colPtr: seq<int>,
                            indices: seq<int>, data: seq<W>, store: V -> W, m: nat, i: nat, c: nat)
    requires IsCsc(agg, numMatrices, ncol, PtrCast(t), colPtr, indices, data, store)
    requires m < numMatrices && c <= ncol && i > INT32_MAX && Fits(ColumnSizes(agg, numMatrices, ncol), m, t)
    ensures Read(colPtr, indices, data, ncol + 1, m, c, i) == []
  {
    var z := ColumnSizes(agg, numMatrices, ncol);
    IndicesAreInt32(agg, numMatrices, ncol, PtrCast(t), colPtr, indices, data, store);
    LateKeyUnread(z, ncol + 1, t, indices, data, m, c, i, Read(colPtr, indices, data, ncol + 1, m, c, i));
  }

  /** The column decodes in every row exactly when it is empty from row 2^31 on. */
  lemma CscReadsIff<V, W>(agg: Aggregate<V>, numMatrices: nat, ncol: nat, t: PtrType, colPtr: seq<int>,
                          indices: seq<int>, data: seq<W>, store: V -> W, m: nat, c: nat)
    requires HasMatrices(agg, numMatrices)
    requires IsCsc(agg, numMatrices, ncol, PtrCast(t), colPtr, indices, data, store)
    requires m < numMatrices && c <= ncol && Fits(ColumnSizes(agg, numMatrices, ncol), m, t)
    ensures (forall i: nat | i < |agg| :: Read(colPtr, indices, data, ncol + 1, m, c, i)
                                          == if c in agg[i][m] then [store(agg[i][m][c])] else [])
            <==> RowsFit(agg, m, c)
  {
    if RowsFit(agg, m, c) {
      forall i: nat | i < |agg|
        ensures Read(colPtr, indices, data, ncol + 1, m, c, i) == if c in agg[i][m] then [store(agg[i][m][c])] else []
      {
        CscReads(agg, numMatrices, ncol, t, colPtr, indices, data, store, m, i, c);
      }
    } else {
      var i: int :| INT32_MAX < i < |agg| && m < |agg[i]| && c in agg[i][m];
      LateRowUnread(agg, numMatrices, ncol, t, colPtr, indices, data, store, m, i, c);
    }
  }

  /** One entry, in row 2^31. */
  ghost function LateRow<V>(v: V): (agg: Aggregate<V>)
    ensures HasMatrices(agg, 1) && ColumnsInRange(agg, 0)
  {
    seq(0x8000_0001, i => [if i == 0x8000_0000 then map[0 := v] else map[]])
  }

  /** The entry is in the aggregate, and its reader finds nothing. */
  lemma LateRowLost<V, W>(v: V, colPtr: seq<int>, indices: seq<int>, data: seq<W>, store: V -> W)
    requires IsCsc(LateRow(v), 1, 0, PtrCast(Int64Ptr), colPtr, indices, data, store)
    ensures LateRow(v)[0x8000_0000][0] == map[0 := v]
    ensures Read(colPtr, indices, data, 1, 0, 0, 0x8000_0000) == []
  {
    LateRowUnread(LateRow(v), 1, 0, Int64Ptr, colPtr, indices, data, store, 0, 0x8000_0000, 0);
  }

  lemma SizedColumns<V>(agg: Aggregate<V>, z: Sizes, m: nat, ncol: nat)
    requires m < |z| && z[m] == ColumnLine(agg, m, ncol, |agg|)
    ensures Sized(Columns(agg, m, ncol), z, m)
  {
  }

  lemma ColumnReads<V, W>(columns: seq<seq<(int, V)>>, z: Sizes, indices: seq<int>, data: seq<W>, store: V -> W,
                          m: nat, i: nat, c: nat)
    requires Sized(columns, z, m) && c < |columns| && Exact(columns[c])
    requires MatrixStored(columns, z, m, indices, data, store)
    requires LineStart(z[m], MatrixStart(z, m), c) + z[m][c] <= |indices| == |data|
    ensures Find(indices, data, LineStart(z[m], MatrixStart(z, m), c),
                 LineStart(z[m], MatrixStart(z, m), c) + z[m][c], i) == Lookup(columns[c], i, store)
  {
    var lo := LineStart(z[m], MatrixStart(z, m), c);
    ColumnIsStored(columns, z, m, c, lo, indices, data, store);
    FindIsLookup(columns[c], |columns[c]|, lo, indices, data, store, i);
    assert columns[c][..|columns[c]|] == columns[c];
  }

  /** The converted value of the pair with row `i`, if any. */
  function Lookup<V, W>(column: seq<(int, V)>, i: int, store: V -> W): seq<W> {
    if column == [] then []
    else if column[|column| - 1].0 == i then [store(column[|column| - 1].1)]
    else Lookup(column[..|column| - 1], i, store)
  }

  lemma {:induction false} FindIsLookup<V, W>(column: seq<(int, V)>, n: nat, lo: nat, indices: seq<int>, data: seq<W>,
                                              store: V -> W, i: int)
    requires n <= |column| && ColumnAt(column, lo, indices, data, store)
    ensures Find(indices, data, lo, lo + n, i) == Lookup(column[..n], i, store)
  {
    if n > 0 {
      assert column[..n][..n - 1] == column[..n - 1];
      FindIsLookup(column, n - 1, lo, indices, data, store, i);
    }
  }

  lemma LookupSnoc<V, W>(column: seq<(int, V)>, e: (int, V), i: int, store: V -> W)
    ensures Lookup(column + [e], i, store) == if e.0 == i then [store(e.1)] else Lookup(column, i, store)
  {
  }

  lemma ColumnNext<V>(agg: Aggregate<V>, m: nat, c: int, n: nat)
    requires n > 0
    ensures Column(agg, m, c, n) == Column(agg, m, c, n - 1)
              + if c in Cell(agg, n - 1, m) then [(n - 1, Cell(agg, n - 1, m)[c])] else []
  {
  }

  lemma {:induction false} LookupColumn<V, W>(agg: Aggregate<V>, m: nat, c: int, n: nat, i: nat, store: V -> W,
                                              found: seq<W>)
    requires found == Lookup(Column(agg, m, c, n), i, store)
    ensures found == if i < n then Entry(agg, m, i, c, store) else []
  {
    if n > 0 {
      var prev := Column(agg, m, c, n - 1);
      LookupColumn(agg, m, c, n - 1, i, store, Lookup(prev, i, store));
      ColumnNext(agg, m, c, n);
      if c in Cell(agg, n - 1, m) {
        LookupSnoc(prev, (n - 1, Cell(agg, n - 1, m)[c]), i, store);
      } else {
        assert prev + [] == prev;
      }
    }
  }

  ghost predicate Exact<V>(column: seq<(int, V)>) {
    forall k {:trigger column[k]} | 0 <= k < |column| :: ToInt32(column[k].0) == column[k].0
  }

  /** The entries of `column` occupy the positions from `lo` on. */
  ghost predicate ColumnAt<V, W>(column: seq<(int, V)>, lo: nat, indices: seq<int>, data: seq<W>, store: V -> W) {
    && lo + |column| <= |indices| == |data|
    && forall l {:trigger indices[l]} {:trigger data[l]} | lo <= l < lo + |column| ::
         indices[l] == column[l - lo].0 && data[l] == store(column[l - lo].1)
  }

  lemma ColumnIsStored<V, W>(columns: seq<seq<(int, V)>>, z: Sizes, m: nat, c: nat, lo: nat,
                             indices: seq<int>, data: seq<W>, store: V -> W)
    requires Sized(columns, z, m) && c < |columns| && Exact(columns[c])
    requires MatrixStored(columns, z, m, indices, data, store)
    requires lo == LineStart(z[m], MatrixStart(z, m), c) && lo + |columns[c]| <= |indices| == |data|
    ensures ColumnAt(columns[c], lo, indices, data, store)
  {
    forall l | lo <= l < lo + |columns[c]|
      ensures indices[l] == columns[c][l - lo].0 && data[l] == store(columns[c][l - lo].1)
    {
      assert IsSlot(z, m, c, l - lo) && Slot(z, m, c, l - lo) == l;
    }
  }

  /** What the aggregate holds for column `c` of matrix `m` in row `i` is what a reader of row `i` finds there. */
  lemma CsrReads<V, W>(agg: Aggregate<V>, numMatrices: nat, t: PtrType, rowPtr: seq<int>,
                       indices: seq<int>, data: seq<W>, store: V -> W, m: nat, i: nat, c: int)
    requires HasMatrices(agg, numMatrices)
    requires IsCsr(agg, numMatrices, PtrCast(t), rowPtr, indices, data, store)
    requires m < numMatrices && i < |agg| && Fits(RowSizes(agg, numMatrices), m, t)
    ensures Read(rowPtr, indices, data, |agg|, m, i, c) == if c in agg[i][m] then [store(agg[i][m][c])] else []
  {
    var z := RowSizes(agg, numMatrices);
    ReadRow(MatrixRows(agg, m), z, |agg|, t, indices, data, store, m, i, Cell(agg, i, m), c,
            Read(rowPtr, indices, data, |agg|, m, i, c));
  }

  lemma ReadRow<V, W>(rows: seq<map<int, V>>, z: Sizes, lines: nat, t: PtrType, indices: seq<int>, data: seq<W>,
                      store: V -> W, m: nat, i: nat, row: map<int, V>, c: int, found: seq<W>)
    requires m < |z| && Uniform(z, lines) && i < lines == |rows| && Fits(z, m, t) && row == rows[i] && |row| == z[m][i]
    requires RowsStored(rows, z[m], MatrixStart(z, m), {}, indices, data, store)
    requires |indices| == |data| == MatrixStart(z, |z|)
    requires found == Read(AllPtrs(z, |z|, PtrCast(t)), indices, data, lines, m, i, c)
    ensures found == if c in row then [store(row[c])] else []
  {
    var lo := LineStart(z[m], MatrixStart(z, m), i);
    ReadLine(z, lines, t, indices, data, m, i, c);
    RowReads(rows, z[m], MatrixStart(z, m), indices, data, store, i, row, c, lo, lo + |row|);
  }

  /** The position of column `c` in row `i`. */
  lemma RowHas<V, W>(rows: seq<map<int, V>>, s: seq<nat>, start: nat, indices: seq<int>, data: seq<W>, store: V -> W,
                     i: nat, c: int, lo: nat, hi: nat)
    returns (k: nat)
    requires i < |rows| == |s| && c in rows[i] && RowsStored(rows, s, start, {}, indices, data, store)
    requires lo == LineStart(s, start, i) && hi == lo + |rows[i]|
    ensures lo <= k < hi <= |indices| == |data| && indices[k] == c && data[k] == store(rows[i][c])
    ensures forall l | lo <= l < hi && indices[l] == c :: l == k
  {
    var part := indices[lo..hi];
    var p :| 0 <= p < |part| && part[p] == c;
    k := lo + p;
  }

  lemma RowLacks<V, W>(rows: seq<map<int, V>>, s: seq<nat>, start: nat, indices: seq<int>, data: seq<W>, store: V -> W,
                       i: nat, c: int, lo: nat, hi: nat)
    requires i < |rows| == |s| && c !in rows[i] && RowsStored(rows, s, start, {}, indices, data, store)
    requires lo == LineStart(s, start, i) && hi == lo + |rows[i]|
    ensures hi <= |indices| == |data| && forall l | lo <= l < hi :: indices[l] != c
  {
  }

  /** A search of row `i`'s range finds the row's entry for column `c`. */
  lemma RowReads<V, W>(rows: seq<map<int, V>>, s: seq<nat>, start: nat, indices: seq<int>, data: seq<W>, store: V -> W,
                       i: nat, row: map<int, V>, c: int, lo: nat, hi: nat)
    requires i < |rows| == |s| && row == rows[i] && RowsStored(rows, s, start, {}, indices, data, store)
    requires lo == LineStart(s, start, i) && hi == lo + |rows[i]| && hi <= |indices| == |data|
    ensures Find(indices, data, lo, hi, c) == if c in row then [store(row[c])] else []
  {
    if c in rows[i] {
      var k := RowHas(rows, s, start, indices, data, store, i, c, lo, hi);
      FindIs(indices, data, lo, hi, c, k);
    } else {
      RowLacks(rows, s, start, indices, data, store, i, c, lo, hi);
      FindNone(indices, data, lo, hi, c);
    }
  }

  /** Reading column `c` from the CSR matrices and from the CSC matrices gives the same elements in every row exactly
      when the column is empty from row 2^31 on. */
  lemma CsrIsCsc<V, W>(agg: Aggregate<V>, numMatrices: nat, ncol: nat, t: PtrType, t': PtrType,
                       rowPtr: seq<int>, rowIndices: seq<int>, rowData: seq<W>,
                       colPtr: seq<int>, colIndices: seq<int>, colData: seq<W>, store: V -> W, m: nat, c: nat)
    requires HasMatrices(agg, numMatrices)
    requires IsCsr(agg, numMatrices, PtrCast(t), rowPtr, rowIndices, rowData, store)
    requires IsCsc(agg, numMatrices, ncol, PtrCast(t'), colPtr, colIndices, colData, store)
    requires m < numMatrices && c <= ncol
    requires Fits(RowSizes(agg, numMatrices), m, t) && Fits(ColumnSizes(agg, numMatrices, ncol), m, t')
    ensures (forall i: nat | i < |agg| ::
               Read(rowPtr, rowIndices, rowData, |agg|, m, i, c)
               == Read(colPtr, colIndices, colData, ncol + 1, m, c, i))
            <==> RowsFit(agg, m, c)
  {
    forall i: nat | i < |agg|
      ensures Read(rowPtr, rowIndices, rowData, |agg|, m, i, c) == if c in agg[i][m] then [store(agg[i][m][c])] else []
    {
      CsrReads(agg, numMatrices, t, rowPtr, rowIndices, rowData, store, m, i, c);
    }
    CscReadsIff(agg, numMatrices, ncol, t', colPtr, colIndices, colData, store, m, c);
  }

  /** Up to 2^31 rows, every column fits. */
  lemma FewRowsFit<V>(agg: Aggregate<V>, m: nat, c: int)
    requires |agg| <= 0x8000_0000
    ensures RowsFit(agg, m, c)
  {
  }

  /** The CSC output is the same array contents whatever the iteration orders were. */
  lemma CscDeterministic<V, W>(agg: Aggregate<V>, numMatrices: nat, ncol: nat, ptr: int -> int,
                               colPtr: seq<int>, indices: seq<int>, data: seq<W>,
                               colPtr': seq<int>, indices': seq<int>, data': seq<W>, store: V -> W)
    requires IsCsc(agg, numMatrices, ncol, ptr, colPtr, indices, data, store)
    requires IsCsc(agg, numMatrices, ncol, ptr, colPtr', indices', data', store)
    ensures colPtr == colPtr' && indices == indices' && data == data'
  {
    var z := ColumnSizes(agg, numMatrices, ncol);
    forall e: nat | e < |indices|
      ensures indices[e] == indices'[e] && data[e] == data'[e]
    {
      var m, c, k := FindSlot(z, e);
      assert MatrixStored(Columns(agg, m, ncol), z, m, indices, data, store);
      assert MatrixStored(Columns(agg, m, ncol), z, m, indices', data', store);
      assert Stored(Columns(agg, m, ncol), z, m, c, k, indices, data, store);
      assert Stored(Columns(agg, m, ncol), z, m, c, k, indices', data', store);
    }
  }
}
