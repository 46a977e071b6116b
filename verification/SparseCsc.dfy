/** Booster::PredictSparseCSC: the counting-sort scatter of per-row contributions into column-major matrices. */
module SparseCsc {
  import opened Blocks
  import opened SparseAggregate
  import opened SparseLayout
  import opened Unordered

  /** Entry `k` of column `c` of matrix `m` sits in its slot: 32-bit row index and converted value. */
  ghost predicate Stored<V, W>(columns: seq<seq<(int, V)>>, z: Sizes, m: nat, c: nat, k: nat,
                               indices: seq<int>, data: seq<W>, store: V -> W)
    requires IsSlot(z, m, c, k)
  {
    && c < |columns| && k < |columns[c]|
    && Slot(z, m, c, k) < |indices| == |data|
    && indices[Slot(z, m, c, k)] == ToInt32(columns[c][k].0)
    && data[Slot(z, m, c, k)] == store(columns[c][k].1)
  }

  ghost predicate MatrixStored<V, W>(columns: seq<seq<(int, V)>>, z: Sizes, m: nat,
                                     indices: seq<int>, data: seq<W>, store: V -> W)
  {
    forall c: nat, k: nat | IsSlot(z, m, c, k) :: Stored(columns, z, m, c, k, indices, data, store)
  }

  /** The complete CSC output: pointer blocks, and every entry in its slot. */
  ghost predicate IsCsc<V, W>(agg: Aggregate<V>, numMatrices: nat, ncol: nat, ptr: int -> int,
                              colPtr: seq<int>, indices: seq<int>, data: seq<W>, store: V -> W)
  {
    var z := ColumnSizes(agg, numMatrices, ncol);
    && colPtr == AllPtrs(z, numMatrices, ptr)
    && |indices| == |data| == MatrixStart(z, numMatrices)
    && forall m: nat | m < numMatrices :: MatrixStored(Columns(agg, m, ncol), z, m, indices, data, store)
  }

  method CountColumns<V>(agg: Aggregate<V>, m: nat, ncol: nat) returns (sizes: seq<nat>)
    requires ColumnsInRange(agg, ncol)
    ensures sizes == ColumnLine(agg, m, ncol, |agg|)
  {
    var columnSizes := new nat[ncol + 1](_ => 0);
    for i := 0 to |agg|
      invariant forall c | 0 <= c <= ncol :: columnSizes[c] == |Column(agg, m, c, i)|
    {
      var rest := Cell(agg, i, m).Keys;
      while rest != {}
        invariant rest <= Cell(agg, i, m).Keys
        invariant forall c | 0 <= c <= ncol ::
          columnSizes[c] == |Column(agg, m, c, i)| + if c in Cell(agg, i, m).Keys - rest then 1 else 0
        decreases |rest|
      {
        var key;
        key, rest := TakeAny(rest);
        columnSizes[key] := columnSizes[key] + 1;
      }
    }
    sizes := columnSizes[..];
  }

  ghost predicate IsStarts(s: seq<nat>, starts: seq<nat>) {
    StartsUpTo(s, starts, |s|)
  }

  ghost predicate StartsUpTo(s: seq<nat>, starts: seq<nat>, n: nat)
    requires n <= |s|
  {
    |starts| == |s| && forall c {:trigger starts[c]} | 0 <= c < n :: starts[c] == PrefixSum(s, c)
  }

  /** The start of column `i`, from the one before it. */
  method NextStart(sizes: seq<nat>, starts: array<nat>, i: nat)
    requires 0 < i < |sizes| && StartsUpTo(sizes, starts[..], i)
    modifies starts
    ensures StartsUpTo(sizes, starts[..], i + 1)
  {
    ghost var before := starts[..];
    assert before[i - 1] == PrefixSum(sizes, i - 1);
    starts[i] := sizes[i - 1] + starts[i - 1];
    assert starts[..] == before[i := PrefixSum(sizes, i)];
  }

  /** The pointer of column `i`, behind the earlier ones. */
  method NextPtr(ghost s: seq<nat>, i: nat, ptr: int -> int, colPtr: array<int>, base: nat, start: nat,
                 ghost before: seq<int>)
    requires i <= |s| && start == PrefixSum(s, i) && base + i < colPtr.Length
    requires colPtr[..base + i] == before + Ptrs(s, i, ptr)
    modifies colPtr
    ensures colPtr[..base + i + 1] == before + Ptrs(s, i + 1, ptr)
  {
    SetPtr(colPtr, base + i, ptr(start));
    PtrsSnoc(before, s, i, ptr, start);
  }

  method SetPtr(colPtr: array<int>, at: nat, p: int)
    requires at < colPtr.Length
    modifies colPtr
    ensures colPtr[..at + 1] == old(colPtr[..at]) + [p]
  {
    colPtr[at] := p;
  }

  lemma PtrsSnoc(before: seq<int>, s: seq<nat>, i: nat, ptr: int -> int, start: nat)
    requires i <= |s| && start == PrefixSum(s, i)
    ensures before + Ptrs(s, i, ptr) + [ptr(start)] == before + Ptrs(s, i + 1, ptr)
  {
  }

  /** One matrix's pointer block, and the column starts the scatter uses. */
  method WriteColPtr(sizes: seq<nat>, ptr: int -> int, colPtr: array<int>, base: nat)
    returns (starts: seq<nat>, total: nat)
    requires |sizes| > 0 && base + |sizes| + 1 <= colPtr.Length
    modifies colPtr
    ensures IsStarts(sizes, starts) && total == PrefixSum(sizes, |sizes|)
    ensures colPtr[..base + |sizes| + 1] == old(colPtr[..base]) + Ptrs(sizes, |sizes| + 1, ptr)
  {
    var n := |sizes|;
    ghost var before := colPtr[..base];
    var columnStarts := new nat[n](_ => 0);
    NextPtr(sizes, 0, ptr, colPtr, base, 0, before);
    for i := 1 to n
      invariant StartsUpTo(sizes, columnStarts[..], i)
      invariant colPtr[..base + i] == before + Ptrs(sizes, i, ptr)
    {
      NextStart(sizes, columnStarts, i);
      NextPtr(sizes, i, ptr, colPtr, base, columnStarts[i], before);
    }
    starts := columnStarts[..];
    total := starts[n - 1] + sizes[n - 1];
    NextPtr(sizes, n, ptr, colPtr, base, total, before);
  }

  ghost predicate AllStarts(z: Sizes, m: nat, starts: seq<seq<nat>>, matrixStarts: seq<nat>)
    requires m <= |z|
  {
    && |starts| == |matrixStarts| == m
    && forall i {:trigger starts[i]} {:trigger matrixStarts[i]} | 0 <= i < m ::
         IsStarts(z[i], starts[i]) && matrixStarts[i] == MatrixStart(z, i)
  }

  lemma AppendStarts(z: Sizes, m: nat, starts: seq<seq<nat>>, matrixStarts: seq<nat>, s: seq<nat>, start: nat)
    requires m < |z| && AllStarts(z, m, starts, matrixStarts) && IsStarts(z[m], s) && start == MatrixStart(z, m)
    ensures AllStarts(z, m + 1, starts + [s], matrixStarts + [start])
  {
  }

  /** The first `n` matrices of `z` have the sizes of their columns. */
  ghost predicate ColumnLines<V>(agg: Aggregate<V>, z: Sizes, ncol: nat, n: nat)
    requires n <= |z|
  {
    n == 0 || (ColumnLines(agg, z, ncol, n - 1) && z[n - 1] == ColumnLine(agg, n - 1, ncol, |agg|))
  }

  lemma {:induction false} ColumnLinesAt<V>(agg: Aggregate<V>, z: Sizes, ncol: nat, n: nat, m: nat)
    requires m < n <= |z| && ColumnLines(agg, z, ncol, n)
    ensures z[m] == ColumnLine(agg, m, ncol, |agg|) && Sized(Columns(agg, m, ncol), z, m)
  {
    if m < n - 1 {
      ColumnLinesAt(agg, z, ncol, n - 1, m);
    }
  }

  lemma {:induction false} ColumnLinesHold<V>(agg: Aggregate<V>, numMatrices: nat, ncol: nat, n: nat)
    requires n <= numMatrices
    ensures ColumnLines(agg, ColumnSizes(agg, numMatrices, ncol), ncol, n)
  {
    if n > 0 {
      ColumnLinesHold(agg, numMatrices, ncol, n - 1);
    }
  }

  lemma {:induction false} LinesUniform<V>(agg: Aggregate<V>, z: Sizes, ncol: nat, n: nat)
    requires n <= |z| && ColumnLines(agg, z, ncol, n)
    ensures Uniform(z[..n], ncol + 1) && (n == |z| ==> Uniform(z, ncol + 1))
  {
    if n > 0 {
      LinesUniform(agg, z, ncol, n - 1);
      assert forall k | 0 <= k < n - 1 :: z[..n][k] == z[..n - 1][k];
    }
  }

  /** Column sizes, pointer block and column starts of matrix `m`, behind those of the earlier matrices. */
  method LayOutMatrix<V>(agg: Aggregate<V>, ghost z: Sizes, m: nat, ncol: nat, ptr: int -> int, colPtr: array<int>,
                         base: nat, starts: seq<seq<nat>>, matrixStarts: seq<nat>, matrixStart: nat)
    returns (starts': seq<seq<nat>>, matrixStarts': seq<nat>, matrixStart': nat)
    requires ColumnsInRange(agg, ncol) && m < |z| && ColumnLines(agg, z, ncol, |z|)
    requires base <= colPtr.Length == |AllPtrs(z, |z|, ptr)| && colPtr[..base] == AllPtrs(z, m, ptr)
    requires AllStarts(z, m, starts, matrixStarts) && matrixStart == MatrixStart(z, m)
    modifies colPtr
    ensures base + ncol + 2 <= colPtr.Length && colPtr[..base + ncol + 2] == AllPtrs(z, m + 1, ptr)
    ensures AllStarts(z, m + 1, starts', matrixStarts') && matrixStart' == MatrixStart(z, m + 1)
  {
    ColumnLinesAt(agg, z, ncol, |z|, m);
    LinesUniform(agg, z, ncol, |z|);
    PtrRoom(z, m, |z|, ncol + 1, ptr);
    var sizes := CountColumns(agg, m, ncol);
    var s, total := WriteColPtr(sizes, ptr, colPtr, base);
    AllPtrsNext(z, m, ptr);
    AppendStarts(z, m, starts, matrixStarts, s, matrixStart);
    starts', matrixStarts', matrixStart' := starts + [s], matrixStarts + [matrixStart], matrixStart + total;
  }

  /** All matrices' columns. */
  method LayOutColumns<V>(agg: Aggregate<V>, ghost z: Sizes, numMatrices: nat, ncol: nat, ptr: int -> int,
                          colPtr: array<int>)
    returns (starts: seq<seq<nat>>, matrixStarts: seq<nat>)
    requires ColumnsInRange(agg, ncol) && |z| == numMatrices && ColumnLines(agg, z, ncol, numMatrices)
    requires colPtr.Length == |AllPtrs(z, numMatrices, ptr)|
    modifies colPtr
    ensures colPtr[..] == AllPtrs(z, numMatrices, ptr)
    ensures AllStarts(z, numMatrices, starts, matrixStarts)
  {
    starts, matrixStarts := [], [];
    var matrixStart, base: nat := 0, 0;
    for m := 0 to numMatrices
      invariant matrixStart == MatrixStart(z, m)
      invariant base <= colPtr.Length && colPtr[..base] == AllPtrs(z, m, ptr)
      invariant AllStarts(z, m, starts, matrixStarts)
    {
      starts, matrixStarts, matrixStart :=
        LayOutMatrix(agg, z, m, ncol, ptr, colPtr, base, starts, matrixStarts, matrixStart);
      base := base + (ncol + 2);
    }
    PrefixIsAll(colPtr, base, AllPtrs(z, numMatrices, ptr));
  }

  /** The first `counts[c]` entries of every column of matrix `m` are stored. */
  ghost predicate Progress<V, W>(columns: seq<seq<(int, V)>>, z: Sizes, m: nat, counts: seq<nat>,
                                 indices: seq<int>, data: seq<W>, store: V -> W)
  {
    forall c: nat, k: nat | IsSlot(z, m, c, k) && c < |counts| && k < counts[c] ::
      Stored(columns, z, m, c, k, indices, data, store)
  }

  /** The sizes of matrix `m` are those of `columns`. */
  ghost predicate Sized<V>(columns: seq<seq<(int, V)>>, z: Sizes, m: nat) {
    m < |z| && |columns| == |z[m]| && forall c {:trigger columns[c]} | 0 <= c < |columns| :: |columns[c]| == z[m][c]
  }

  /** Storing the next entry of column `key`. */
  lemma ProgressStep<V, W>(columns: seq<seq<(int, V)>>, z: Sizes, m: nat, key: nat, i: int, v: V,
                           counts: seq<nat>, indices: seq<int>, data: seq<W>, store: V -> W)
    requires Sized(columns, z, m) && key < |columns| == |counts|
    requires counts[key] < |columns[key]| && columns[key][counts[key]] == (i, v)
    requires |indices| == |data| == MatrixStart(z, |z|)
    requires Progress(columns, z, m, counts, indices, data, store)
    ensures IsSlot(z, m, key, counts[key])
    ensures MatrixStart(z, m) <= Slot(z, m, key, counts[key]) < MatrixStart(z, m + 1) <= |indices|
    ensures Progress(columns, z, m, counts[key := counts[key] + 1],
                     indices[Slot(z, m, key, counts[key]) := ToInt32(i)],
                     data[Slot(z, m, key, counts[key]) := store(v)], store)
  {
    var k := counts[key];
    SlotInMatrix(z, m, key, k);
    var e := Slot(z, m, key, k);
    var counts', indices', data' := counts[key := k + 1], indices[e := ToInt32(i)], data[e := store(v)];
    forall c: nat, l: nat | IsSlot(z, m, c, l) && c < |counts'| && l < counts'[c]
      ensures Stored(columns, z, m, c, l, indices', data', store)
    {
      if !(c == key && l == k) {
        assert Stored(columns, z, m, c, l, indices, data, store);
        SlotInjective(z, m, c, l, m, key, k);
      }
    }
  }

  /** One entry of a row, stored at the next free slot of its column. */
  method StoreEntry<V, W>(key: nat, i: int, v: V, ghost columns: seq<seq<(int, V)>>, ghost z: Sizes, ghost m: nat,
                          start: nat, matrixStart: nat, counts: array<nat>, indices: array<int>, data: array<W>,
                          store: V -> W)
    requires Sized(columns, z, m) && key < |columns| == counts.Length
    requires start == PrefixSum(z[m], key) && matrixStart == MatrixStart(z, m)
    requires counts[key] < |columns[key]| && columns[key][counts[key]] == (i, v)
    requires counts as object != indices && indices as object != data && counts as object != data
    requires indices.Length == data.Length == MatrixStart(z, |z|)
    requires Progress(columns, z, m, counts[..], indices[..], data[..], store)
    modifies counts, indices, data
    ensures counts[..] == old(counts[..])[key := old(counts[key]) + 1]
    ensures Progress(columns, z, m, counts[..], indices[..], data[..], store)
    ensures SameOutside(matrixStart, MatrixStart(z, m + 1), old(indices[..]), indices[..])
    ensures SameOutside(matrixStart, MatrixStart(z, m + 1), old(data[..]), data[..])
  {
    ghost var ind, dat, cnt := indices[..], data[..], counts[..];
    ProgressStep(columns, z, m, key, i, v, cnt, ind, dat, store);
    var e := start + matrixStart + counts[key];
    indices[e] := ToInt32(i);
    counts[key] := counts[key] + 1;
    data[e] := store(v);
    assert indices[..] == ind[e := ToInt32(i)];
    assert data[..] == dat[e := store(v)];
    assert counts[..] == cnt[key := cnt[key] + 1];
  }

  /** One row of the scatter, for any order of the row's keys; `columns` lists what each column must hold. */
  method ScatterRow<V, W>(row: map<int, V>, i: int, ghost columns: seq<seq<(int, V)>>, ghost z: Sizes, ghost m: nat,
                          starts: seq<nat>, matrixStart: nat, counts: array<nat>, indices: array<int>,
                          data: array<W>, store: V -> W)
    requires Sized(columns, z, m) && IsStarts(z[m], starts) && matrixStart == MatrixStart(z, m)
    requires counts.Length == |columns|
    requires forall key | key in row :: 0 <= key < |columns|
               && counts[key] < |columns[key]| && columns[key][counts[key]] == (i, row[key])
    requires counts as object != indices && indices as object != data && counts as object != data
    requires indices.Length == data.Length == MatrixStart(z, |z|)
    requires Progress(columns, z, m, counts[..], indices[..], data[..], store)
    modifies counts, indices, data
    ensures forall c | 0 <= c < |columns| :: counts[c] == old(counts[c]) + if c in row then 1 else 0
    ensures Progress(columns, z, m, counts[..], indices[..], data[..], store)
    ensures SameOutside(matrixStart, MatrixStart(z, m + 1), old(indices[..]), indices[..])
    ensures SameOutside(matrixStart, MatrixStart(z, m + 1), old(data[..]), data[..])
  {
    var rest := row.Keys;
    while rest != {}
      invariant rest <= row.Keys
      invariant forall c | 0 <= c < |columns| ::
                  counts[c] == old(counts[c]) + if c in row && c !in rest then 1 else 0
      invariant Progress(columns, z, m, counts[..], indices[..], data[..], store)
      invariant SameOutside(matrixStart, MatrixStart(z, m + 1), old(indices[..]), indices[..])
      invariant SameOutside(matrixStart, MatrixStart(z, m + 1), old(data[..]), data[..])
      decreases |rest|
    {
      var key;
      key, rest := TakeAny(rest);
      ghost var cnt := counts[..];
      StoreEntry(key, i, row[key], columns, z, m, starts[key], matrixStart, counts, indices, data, store);
      assert forall c | 0 <= c < |columns| :: counts[c] == cnt[c] + if c == key then 1 else 0;
    }
  }

  /** `counts` holds how many entries each column has in the first `i` rows. */
  ghost predicate ColumnRanks<V>(agg: Aggregate<V>, m: nat, i: nat, counts: seq<nat>) {
    forall c {:trigger counts[c]} | 0 <= c < |counts| :: counts[c] == |Column(agg, m, c, i)|
  }

  /** Row `i` is the next entry of every column it contains. */
  lemma NextEntries<V>(agg: Aggregate<V>, m: nat, ncol: nat, i: nat, counts: seq<nat>)
    requires ColumnsInRange(agg, ncol) && i < |agg| && |counts| == ncol + 1 && ColumnRanks(agg, m, i, counts)
    ensures forall key | key in Cell(agg, i, m) :: 0 <= key <= ncol
              && counts[key] < |Columns(agg, m, ncol)[key]|
              && Columns(agg, m, ncol)[key][counts[key]] == (i, Cell(agg, i, m)[key])
  {
    forall key | key in Cell(agg, i, m)
      ensures 0 <= key <= ncol && counts[key] < |Columns(agg, m, ncol)[key]|
      ensures Columns(agg, m, ncol)[key][counts[key]] == (i, Cell(agg, i, m)[key])
    {
      ColumnRank(agg, m, key, |agg|, i);
    }
  }

  lemma RanksGrow<V>(agg: Aggregate<V>, m: nat, i: nat, counts: seq<nat>, counts': seq<nat>)
    requires ColumnRanks(agg, m, i, counts) && |counts'| == |counts|
    requires forall c {:trigger counts'[c]} | 0 <= c < |counts| ::
               counts'[c] == counts[c] + if c in Cell(agg, i, m) then 1 else 0
    ensures ColumnRanks(agg, m, i + 1, counts')
  {
  }

  /** Row `i`, behind the rows before it. */
  method ScatterNext<V, W>(agg: Aggregate<V>, ghost columns: seq<seq<(int, V)>>, ghost z: Sizes, ncol: nat, m: nat,
                           i: nat, starts: seq<nat>, matrixStart: nat, counts: array<nat>, indices: array<int>,
                           data: array<W>, store: V -> W)
    requires ColumnsInRange(agg, ncol) && columns == Columns(agg, m, ncol) && Sized(columns, z, m) && i < |agg|
    requires IsStarts(z[m], starts) && matrixStart == MatrixStart(z, m)
    requires counts as object != indices && indices as object != data && counts as object != data
    requires counts.Length == ncol + 1 && indices.Length == data.Length == MatrixStart(z, |z|)
    requires ColumnRanks(agg, m, i, counts[..]) && Progress(columns, z, m, counts[..], indices[..], data[..], store)
    modifies counts, indices, data
    ensures ColumnRanks(agg, m, i + 1, counts[..])
    ensures Progress(columns, z, m, counts[..], indices[..], data[..], store)
    ensures SameOutside(matrixStart, MatrixStart(z, m + 1), old(indices[..]), indices[..])
    ensures SameOutside(matrixStart, MatrixStart(z, m + 1), old(data[..]), data[..])
  {
    ghost var before := counts[..];
    NextEntries(agg, m, ncol, i, before);
    ScatterRow(Cell(agg, i, m), i, columns, z, m, starts, matrixStart, counts, indices, data, store);
    RanksGrow(agg, m, i, before, counts[..]);
  }

  /** The rows of one matrix, in order. */
  method ScatterRows<V, W>(agg: Aggregate<V>, ghost columns: seq<seq<(int, V)>>, ghost z: Sizes, ncol: nat, m: nat,
                           starts: seq<nat>, matrixStart: nat, counts: array<nat>, indices: array<int>,
                           data: array<W>, store: V -> W)
    requires ColumnsInRange(agg, ncol) && columns == Columns(agg, m, ncol) && Sized(columns, z, m)
    requires IsStarts(z[m], starts) && matrixStart == MatrixStart(z, m)
    requires counts as object != indices && indices as object != data && counts as object != data
    requires counts.Length == ncol + 1 && indices.Length == data.Length == MatrixStart(z, |z|)
    requires ColumnRanks(agg, m, 0, counts[..])
    modifies counts, indices, data
    ensures ColumnRanks(agg, m, |agg|, counts[..])
    ensures Progress(columns, z, m, counts[..], indices[..], data[..], store)
    ensures SameOutside(matrixStart, MatrixStart(z, m + 1), old(indices[..]), indices[..])
    ensures SameOutside(matrixStart, MatrixStart(z, m + 1), old(data[..]), data[..])
  {
    for i := 0 to |agg|
      invariant ColumnRanks(agg, m, i, counts[..])
      invariant Progress(columns, z, m, counts[..], indices[..], data[..], store)
      invariant SameOutside(matrixStart, MatrixStart(z, m + 1), old(indices[..]), indices[..])
      invariant SameOutside(matrixStart, MatrixStart(z, m + 1), old(data[..]), data[..])
    {
      ScatterNext(agg, columns, z, ncol, m, i, starts, matrixStart, counts, indices, data, store);
    }
  }

  /** The scatter of one matrix. */
  method ScatterMatrix<V, W>(agg: Aggregate<V>, ghost z: Sizes, ncol: nat, m: nat, starts: seq<nat>,
                             matrixStart: nat, indices: array<int>, data: array<W>, store: V -> W)
    requires ColumnsInRange(agg, ncol) && Sized(Columns(agg, m, ncol), z, m)
    requires IsStarts(z[m], starts) && matrixStart == MatrixStart(z, m)
    requires indices as object != data && indices.Length == data.Length == MatrixStart(z, |z|)
    modifies indices, data
    ensures MatrixStored(Columns(agg, m, ncol), z, m, indices[..], data[..], store)
    ensures SameOutside(matrixStart, MatrixStart(z, m + 1), old(indices[..]), indices[..])
    ensures SameOutside(matrixStart, MatrixStart(z, m + 1), old(data[..]), data[..])
  {
    ghost var columns := Columns(agg, m, ncol);
    var counts := new nat[ncol + 1](_ => 0);
    ScatterRows(agg, columns, z, ncol, m, starts, matrixStart, counts, indices, data, store);
    AllStored(columns, z, m, counts[..], indices[..], data[..], store);
  }

  lemma AllStored<V, W>(columns: seq<seq<(int, V)>>, z: Sizes, m: nat, counts: seq<nat>,
                        indices: seq<int>, data: seq<W>, store: V -> W)
    requires Sized(columns, z, m) && |counts| == |columns| && Progress(columns, z, m, counts, indices, data, store)
    requires forall c {:trigger counts[c]} | 0 <= c < |counts| :: counts[c] == |columns[c]|
    ensures MatrixStored(columns, z, m, indices, data, store)
  {
  }

  /** Writing inside one matrix's region keeps every other matrix's entries: the parallel writes are disjoint. */
  lemma MatrixKept<V, W>(columns: seq<seq<(int, V)>>, z: Sizes, m: nat, written: nat,
                         indices: seq<int>, data: seq<W>, indices': seq<int>, data': seq<W>, store: V -> W)
    requires m != written && m < |z| && written < |z| && MatrixStored(columns, z, m, indices, data, store)
    requires SameOutside(MatrixStart(z, written), MatrixStart(z, written + 1), indices, indices')
    requires SameOutside(MatrixStart(z, written), MatrixStart(z, written + 1), data, data')
    ensures MatrixStored(columns, z, m, indices', data', store)
  {
    if m < written {
      MatrixStartMonotone(z, m + 1, written);
    } else {
      MatrixStartMonotone(z, written + 1, m);
    }
    forall c: nat, k: nat | IsSlot(z, m, c, k)
      ensures Stored(columns, z, m, c, k, indices', data', store)
    {
      assert Stored(columns, z, m, c, k, indices, data, store);
      SlotInMatrix(z, m, c, k);
    }
  }

  /** The parallel scatter: the matrices run in any order. */
  method ScatterAll<V, W>(agg: Aggregate<V>, ghost z: Sizes, numMatrices: nat, ncol: nat, starts: seq<seq<nat>>,
                          matrixStarts: seq<nat>, indices: array<int>, data: array<W>, store: V -> W)
    requires ColumnsInRange(agg, ncol) && |z| == numMatrices && ColumnLines(agg, z, ncol, numMatrices)
    requires AllStarts(z, numMatrices, starts, matrixStarts)
    requires indices as object != data && indices.Length == data.Length == MatrixStart(z, numMatrices)
    modifies indices, data
    ensures forall m: nat | m < numMatrices ::
              MatrixStored(Columns(agg, m, ncol), z, m, indices[..], data[..], store)
  {
    var pending := Below(numMatrices);
    while pending != {}
      invariant pending <= Below(numMatrices)
      invariant forall m: nat | m < numMatrices && m !in pending ::
                  MatrixStored(Columns(agg, m, ncol), z, m, indices[..], data[..], store)
      decreases |pending|
    {
      var m;
      m, pending := TakeAny(pending);
      ghost var ind, dat := indices[..], data[..];
      ColumnLinesAt(agg, z, ncol, numMatrices, m);
      ScatterMatrix(agg, z, ncol, m, starts[m], matrixStarts[m], indices, data, store);
      forall m': nat | m' < numMatrices && m' !in pending
        ensures MatrixStored(Columns(agg, m', ncol), z, m', indices[..], data[..], store)
      {
        if m' != m {
          MatrixKept(Columns(agg, m', ncol), z, m', m, ind, dat, indices[..], data[..], store);
        }
      }
    }
  }

  /** Counting pass, pointers and scatter into the allocated buffers. */
  method FillCsc<V, W>(agg: Aggregate<V>, numMatrices: nat, ncol: nat, ptr: int -> int,
                       colPtr: array<int>, indices: array<int>, data: array<W>, store: V -> W)
    requires ColumnsInRange(agg, ncol)
    requires colPtr != indices && colPtr as object != data && indices as object != data
    requires colPtr.Length == numMatrices * (ncol + 2)
    requires indices.Length == data.Length == MatrixStart(ColumnSizes(agg, numMatrices, ncol), numMatrices)
    modifies colPtr, indices, data
    ensures IsCsc(agg, numMatrices, ncol, ptr, colPtr[..], indices[..], data[..], store)
  {
    ghost var z := ColumnSizes(agg, numMatrices, ncol);
    AllPtrsLength(z, numMatrices, ncol + 1, ptr);
    ColumnLinesHold(agg, numMatrices, ncol, numMatrices);
    var starts, matrixStarts := LayOutColumns(agg, z, numMatrices, ncol, ptr, colPtr);
    ScatterAll(agg, z, numMatrices, ncol, starts, matrixStarts, indices, data, store);
  }

  /** Every row index is a 32-bit integer, whatever the number of rows. */
  lemma IndicesAreInt32<V, W>(agg: Aggregate<V>, numMatrices: nat, ncol: nat, ptr: int -> int,
                              colPtr: seq<int>, indices: seq<int>, data: seq<W>, store: V -> W)
    requires IsCsc(agg, numMatrices, ncol, ptr, colPtr, indices, data, store)
    ensures forall e :: 0 <= e < |indices| ==> -0x8000_0000 <= indices[e] <= INT32_MAX
  {
    var z := ColumnSizes(agg, numMatrices, ncol);
    forall e | 0 <= e < |indices|
      ensures -0x8000_0000 <= indices[e] <= INT32_MAX
    {
      var m, c, k := FindSlot(z, e);
      assert MatrixStored(Columns(agg, m, ncol), z, m, indices, data, store);
      assert Stored(Columns(agg, m, ncol), z, m, c, k, indices, data, store);
      ToInt32Range(Columns(agg, m, ncol)[c][k].0);
    }
  }

  /** The size of the column pointer array, ncol + 2 per matrix, is computed in 32 bits. */
  predicate ColPtrOverflows(numMatrices: nat, ncol: nat) {
    ncol + 2 > INT32_MAX || numMatrices * (ncol + 2) > INT32_MAX
  }

  /** A thousand classes: too many pointers from 2,147,482 columns on. */
  lemma ThousandClasses(ncol: nat)
    ensures ColPtrOverflows(1000, ncol) <==> ncol >= 2_147_482
  {
  }

  /** The CSC output, for every order of a row's keys and of the scatter's matrices. */
  method PredictSparseCSC<V, W(0)>(agg: Aggregate<V>, numMatrices: nat, ncol: nat, t: PtrType, d: DataType,
                                   store: V -> W)
    returns (status: Status, colPtr: array<int>, indices: array<int>, data: array<W>)
    requires HasMatrices(agg, numMatrices) && ColumnsInRange(agg, ncol)
    ensures status == if ncol + 2 > INT32_MAX || (ncol + 2) * numMatrices > INT32_MAX then PointerSizeOverflow
                      else if t == UnknownPtr then UnknownPtrType else if d == UnknownData then UnknownDataType else Ok
    ensures status == Ok ==> IsCsc(agg, numMatrices, ncol, PtrCast(t), colPtr[..], indices[..], data[..], store)
  {
    colPtr, indices, data := new int[0], new int[0], new W[0];
    if ColPtrOverflows(numMatrices, ncol) {
      return PointerSizeOverflow, colPtr, indices, data;
    }
    if t == UnknownPtr {
      return UnknownPtrType, colPtr, indices, data;
    }
    MulMonotone(0, numMatrices, ncol + 2);
    colPtr := new int[numMatrices * (ncol + 2)];
    var elementsSize := CountElements(agg, numMatrices);
    if d == UnknownData {
      return UnknownDataType, colPtr, indices, data;
    }
    data := new W[elementsSize];
    indices := new int[elementsSize];
    SameMatrixStarts(agg, numMatrices, ncol, numMatrices);
    FillCsc(agg, numMatrices, ncol, PtrCast(t), colPtr, indices, data, store);
    status := Ok;
  }
}
