/** Booster::PredictSparseCSR: per-row contributions laid out row by row, matrix by matrix. */
module SparseCsr {
  import opened Blocks
  import opened SparseAggregate
  import opened SparseLayout
  import opened Unordered

  /** From `e` on, the buffers hold each entry of `row` exactly once, in some order. */
  ghost predicate RowStored<V, W>(row: map<int, V>, e: nat, indices: seq<int>, data: seq<W>, store: V -> W) {
    && e + |row| <= |indices| == |data|
    && (forall k | e <= k < e + |row| :: indices[k] in row && data[k] == store(row[indices[k]]))
    && (forall k, l | e <= k < l < e + |row| :: indices[k] != indices[l])
    && (forall key | key in row :: key in indices[e..e + |row|])
  }

  /** The rows outside `pending` are stored at their offsets; `s` lists the row sizes. */
  ghost predicate RowsStored<V, W>(rows: seq<map<int, V>>, s: seq<nat>, start: nat, pending: set<int>,
                                   indices: seq<int>, data: seq<W>, store: V -> W)
  {
    && |rows| == |s|
    && forall i {:trigger LineStart(s, start, i)} | 0 <= i < |s| && i !in pending ::
         RowStored(rows[i], LineStart(s, start, i), indices, data, store)
  }

  ghost predicate SizesOf<V>(rows: seq<map<int, V>>, s: seq<nat>) {
    |rows| == |s| && forall i {:trigger s[i]} {:trigger rows[i]} | 0 <= i < |s| :: s[i] == |rows[i]|
  }

  /** The complete CSR output: pointer blocks, and every row at its offset. */
  ghost predicate IsCsr<V, W>(agg: Aggregate<V>, numMatrices: nat, ptr: int -> int,
                              rowPtr: seq<int>, indices: seq<int>, data: seq<W>, store: V -> W)
  {
    var z := RowSizes(agg, numMatrices);
    && rowPtr == AllPtrs(z, numMatrices, ptr)
    && |indices| == |data| == MatrixStart(z, numMatrices)
    && forall m: nat | m < numMatrices ::
         RowsStored(MatrixRows(agg, m), z[m], MatrixStart(z, m), {}, indices, data, store)
  }

  // ---------------------------------------------------------------- row tables

  ghost predicate OffsetsOf(s: seq<nat>, n: nat, offsets: seq<nat>)
    requires n <= |s|
  {
    |offsets| == n && forall i {:trigger offsets[i]} | 0 <= i < n :: offsets[i] == PrefixSum(s, i)
  }

  /** The flat tables after `m` matrices: sizes and row offsets, matrix by matrix. */
  ghost predicate Tables(z: Sizes, m: nat, rowSizes: seq<nat>, rowOffsets: seq<nat>, offsetBlocks: seq<seq<nat>>)
  {
    && m <= |z| && |offsetBlocks| == m
    && rowSizes == Flatten(z[..m]) && rowOffsets == Flatten(offsetBlocks)
    && forall k {:trigger offsetBlocks[k]} | 0 <= k < m :: OffsetsOf(z[k], |z[k]|, offsetBlocks[k])
  }

  lemma TablesStep(z: Sizes, m: nat, rowSizes: seq<nat>, rowOffsets: seq<nat>, offsetBlocks: seq<seq<nat>>,
                   offsets: seq<nat>)
    requires m < |z| && Tables(z, m, rowSizes, rowOffsets, offsetBlocks) && OffsetsOf(z[m], |z[m]|, offsets)
    ensures Tables(z, m + 1, rowSizes + z[m], rowOffsets + offsets, offsetBlocks + [offsets])
  {
    assert z[..m + 1][..m] == z[..m];
    assert (offsetBlocks + [offsets])[..m] == offsetBlocks;
  }

  /** The size and offset of row `i` of matrix `m` are found at index m * nrow + i. */
  lemma TablesAt(z: Sizes, nrow: nat, rowSizes: seq<nat>, rowOffsets: seq<nat>, offsetBlocks: seq<seq<nat>>, m: nat,
                 i: nat)
    requires Uniform(z, nrow) && m < |z| && i < nrow && Tables(z, |z|, rowSizes, rowOffsets, offsetBlocks)
    ensures 0 <= m * nrow + i < |rowSizes| == |rowOffsets|
    ensures rowSizes[m * nrow + i] == z[m][i] && rowOffsets[m * nrow + i] == PrefixSum(z[m], i)
  {
    assert z[..|z|] == z;
    FlattenAt(z, nrow, m, i);
    FlattenAt(offsetBlocks, nrow, m, i);
  }

  /** One matrix's part of the row tables. */
  method MatrixTables<V>(agg: Aggregate<V>, m: nat, rowSizes: seq<nat>, rowOffsets: seq<nat>)
    returns (rowSizes': seq<nat>, rowOffsets': seq<nat>, ghost offsets: seq<nat>)
    requires |rowSizes| == |rowOffsets|
    ensures OffsetsOf(RowLine(agg, m), |agg|, offsets)
    ensures rowSizes' == rowSizes + RowLine(agg, m) && rowOffsets' == rowOffsets + offsets
  {
    ghost var line := RowLine(agg, m);
    rowSizes', rowOffsets', offsets := rowSizes, rowOffsets, [];
    for i := 0 to |agg|
      invariant OffsetsOf(line, i, offsets)
      invariant rowSizes' == rowSizes + line[..i] && rowOffsets' == rowOffsets + offsets
    {
      var offset := if i == 0 then 0 else rowSizes'[|rowSizes'| - 1] + rowOffsets'[|rowOffsets'| - 1];
      rowSizes' := rowSizes' + [|Cell(agg, i, m)|];
      rowOffsets' := rowOffsets' + [offset];
      offsets := offsets + [offset];
      assert line[..i + 1] == line[..i] + [line[i]];
    }
  }

  ghost predicate MatrixOffsets(z: Sizes, m: nat, offsets: seq<nat>)
    requires m <= |z|
  {
    |offsets| == m && forall k {:trigger offsets[k]} | 0 <= k < m :: offsets[k] == MatrixStart(z, k)
  }

  /** The last table entries close the matrix. */
  lemma LastEntries(s: seq<nat>, rowSizes: seq<nat>, rowOffsets: seq<nat>, offsets: seq<nat>)
    requires |s| > 0 && OffsetsOf(s, |s|, offsets)
    ensures (rowOffsets + offsets)[|rowOffsets + offsets| - 1] + (rowSizes + s)[|rowSizes + s| - 1] == PrefixSum(s, |s|)
  {
  }

  /** Row sizes, row offsets and matrix offsets. With several matrices and no rows, the second matrix's offset
      would be computed from position -1 of the empty tables: that is `ok == false`. */
  method RowLayout<V>(agg: Aggregate<V>, numMatrices: nat)
    returns (ok: bool, rowSizes: seq<nat>, rowOffsets: seq<nat>, matrixOffsets: seq<nat>,
             ghost offsetBlocks: seq<seq<nat>>)
    ensures ok <==> |agg| > 0 || numMatrices <= 1
    ensures ok ==> MatrixOffsets(RowSizes(agg, numMatrices), numMatrices, matrixOffsets)
    ensures ok ==> Tables(RowSizes(agg, numMatrices), numMatrices, rowSizes, rowOffsets, offsetBlocks)
  {
    ghost var z := RowSizes(agg, numMatrices);
    rowSizes, rowOffsets, matrixOffsets, offsetBlocks := [], [], [], [];
    ok := true;
    var nextOffset := 0;
    for m := 0 to numMatrices
      invariant ok && |rowSizes| == |rowOffsets|
      invariant Tables(z, m, rowSizes, rowOffsets, offsetBlocks)
      invariant MatrixOffsets(z, m, matrixOffsets)
      invariant m < numMatrices ==> nextOffset == MatrixStart(z, m)
      invariant agg == [] ==> rowSizes == []
      invariant 0 < m && 1 < numMatrices ==> |agg| > 0
    {
      ghost var offsets, sizes0, offsets0;
      sizes0, offsets0 := rowSizes, rowOffsets;
      TablesBefore(z, m, rowSizes, rowOffsets, offsetBlocks);
      rowSizes, rowOffsets, offsets := MatrixTables(agg, m, rowSizes, rowOffsets);
      TablesStep(z, m, sizes0, offsets0, offsetBlocks, offsets);
      offsetBlocks := offsetBlocks + [offsets];
      matrixOffsets := matrixOffsets + [nextOffset];
      if m + 1 < numMatrices {
        if |rowSizes| - 1 < 0 {
          return false, rowSizes, rowOffsets, matrixOffsets, offsetBlocks;
        }
        LastEntries(z[m], sizes0, offsets0, offsets);
        nextOffset := nextOffset + rowOffsets[|rowOffsets| - 1] + rowSizes[|rowSizes| - 1];
      }
    }
  }

  /** Both tables have the same length. */
  lemma {:induction false} TablesBefore(z: Sizes, m: nat, rowSizes: seq<nat>, rowOffsets: seq<nat>,
                                         offsetBlocks: seq<seq<nat>>)
    requires Tables(z, m, rowSizes, rowOffsets, offsetBlocks)
    ensures |rowSizes| == |rowOffsets|
  {
    if m > 0 {
      assert z[..m][..m - 1] == z[..m - 1];
      assert OffsetsOf(z[m - 1], |z[m - 1]|, offsetBlocks[m - 1]);
      TablesBefore(z, m - 1, Flatten(z[..m - 1]), Flatten(offsetBlocks[..m - 1]), offsetBlocks[..m - 1]);
    }
  }

  // ---------------------------------------------------------------- writing

  /** Positions from `e` up to `p` hold the entries of `row` outside `rest`, each once. */
  ghost predicate PartStored<V, W>(row: map<int, V>, rest: set<int>, e: nat, p: nat, indices: seq<int>, data: seq<W>,
                                   store: V -> W)
  {
    && p <= |indices| == |data|
    && (forall k | e <= k < p :: indices[k] in row && indices[k] !in rest && data[k] == store(row[indices[k]]))
    && (forall k, l | e <= k < l < p :: indices[k] != indices[l])
    && (forall key | key in row && key !in rest :: exists k :: e <= k < p && indices[k] == key)
  }

  lemma PartStep<V, W>(row: map<int, V>, rest: set<int>, key: int, e: nat, p: nat, indices: seq<int>, data: seq<W>,
                       indices': seq<int>, data': seq<W>, store: V -> W)
    requires PartStored(row, rest, e, p, indices, data, store) && key in rest && key in row && e <= p < |indices|
    requires indices' == indices[p := key] && data' == data[p := store(row[key])]
    ensures PartStored(row, rest - {key}, e, p + 1, indices', data', store)
  {
    forall other | other in row && other !in rest - {key}
      ensures exists k :: e <= k < p + 1 && indices'[k] == other
    {
      if other == key {
        assert indices'[p] == key;
      } else {
        var k :| e <= k < p && indices[k] == other;
        assert indices'[k] == other;
      }
    }
  }

  lemma PartComplete<V, W>(row: map<int, V>, e: nat, indices: seq<int>, data: seq<W>, store: V -> W)
    requires PartStored(row, {}, e, e + |row|, indices, data, store)
    ensures RowStored(row, e, indices, data, store)
  {
  }

  /** One row's entries, in any key order. */
  method WriteRow<V, W>(row: map<int, V>, e: nat, indices: array<int>, data: array<W>, store: V -> W)
    requires indices as object != data && e + |row| <= indices.Length == data.Length
    modifies indices, data
    ensures RowStored(row, e, indices[..], data[..], store)
    ensures SameOutside(e, e + |row|, old(indices[..]), indices[..])
    ensures SameOutside(e, e + |row|, old(data[..]), data[..])
  {
    var rest := row.Keys;
    var p := e;
    assert |row.Keys| == |row|;
    while rest != {}
      invariant rest <= row.Keys && p == e + |row| - |rest|
      invariant PartStored(row, rest, e, p, indices[..], data[..], store)
      invariant SameOutside(e, e + |row|, old(indices[..]), indices[..])
      invariant SameOutside(e, e + |row|, old(data[..]), data[..])
      decreases |rest|
    {
      ghost var before, ind, dat := rest, indices[..], data[..];
      var key;
      key, rest := TakeAny(rest);
      indices[p] := key;
      data[p] := store(row[key]);
      PartStep(row, before, key, e, p, ind, dat, indices[..], data[..], store);
      p := p + 1;
    }
    PartComplete(row, e, indices[..], data[..], store);
  }

  lemma RowKept<V, W>(row: map<int, V>, e: nat, lo: int, hi: int, indices: seq<int>, data: seq<W>,
                      indices': seq<int>, data': seq<W>, store: V -> W)
    requires RowStored(row, e, indices, data, store) && (e + |row| <= lo || hi <= e)
    requires SameOutside(lo, hi, indices, indices') && SameOutside(lo, hi, data, data')
    ensures RowStored(row, e, indices', data', store)
  {
  }

  /** Writing row `w` keeps the other rows of its matrix: the parallel row writes are disjoint. */
  lemma OtherRowsKept<V, W>(rows: seq<map<int, V>>, s: seq<nat>, start: nat, w: nat, pending: set<int>,
                            indices: seq<int>, data: seq<W>, indices': seq<int>, data': seq<W>, store: V -> W)
    requires SizesOf(rows, s) && w < |s| && RowsStored(rows, s, start, pending, indices, data, store)
    requires RowStored(rows[w], LineStart(s, start, w), indices', data', store)
    requires SameOutside(LineStart(s, start, w), LineStart(s, start, w) + s[w], indices, indices')
    requires SameOutside(LineStart(s, start, w), LineStart(s, start, w) + s[w], data, data')
    ensures RowsStored(rows, s, start, pending - {w}, indices', data', store)
  {
    var lo := LineStart(s, start, w);
    forall i | 0 <= i < |s| && i !in pending - {w}
      ensures RowStored(rows[i], LineStart(s, start, i), indices', data', store)
    {
      if i != w {
        if i < w {
          LinesApart(s, start, i, w);
        } else {
          LinesApart(s, start, w, i);
        }
        RowKept(rows[i], LineStart(s, start, i), lo, lo + s[w], indices, data, indices', data', store);
      }
    }
  }

  /** Writing behind a matrix keeps all its rows. */
  lemma AllRowsKept<V, W>(rows: seq<map<int, V>>, s: seq<nat>, start: nat, lo: int, hi: int,
                          indices: seq<int>, data: seq<W>, indices': seq<int>, data': seq<W>, store: V -> W)
    requires SizesOf(rows, s) && RowsStored(rows, s, start, {}, indices, data, store)
    requires LineStart(s, start, |s|) <= lo
    requires SameOutside(lo, hi, indices, indices') && SameOutside(lo, hi, data, data')
    ensures RowsStored(rows, s, start, {}, indices', data', store)
  {
    forall i | 0 <= i < |s|
      ensures RowStored(rows[i], LineStart(s, start, i), indices', data', store)
    {
      LineInside(s, start, i);
      RowKept(rows[i], LineStart(s, start, i), lo, hi, indices, data, indices', data', store);
    }
  }

  /** A matrix's pointer block, with the rows of `pending` still to be written. */
  ghost predicate BlockWritten(s: seq<nat>, ptr: int -> int, pending: set<int>, block: seq<int>) {
    && |block| == |s| + 1
    && block[0] == ptr(0)
    && forall k {:trigger block[k]} | 1 <= k < |block| && k - 1 !in pending :: block[k] == ptr(PrefixSum(s, k))
  }

  lemma BlockComplete(s: seq<nat>, ptr: int -> int, block: seq<int>)
    requires BlockWritten(s, ptr, {}, block)
    ensures block == Ptrs(s, |s| + 1, ptr)
  {
    forall k | 0 <= k < |block|
      ensures block[k] == Ptrs(s, |s| + 1, ptr)[k]
    {
      PtrsAt(s, |s| + 1, ptr, k);
    }
  }

  /** The pointer that closes row `i`. */
  method SetPointer(ghost s: seq<nat>, ptr: int -> int, ghost pending: set<int>, rowPtr: array<int>, base: nat, i: nat,
                    end: int)
    requires i < |s| && end == PrefixSum(s, i + 1) && base + |s| + 1 <= rowPtr.Length
    requires BlockWritten(s, ptr, pending, rowPtr[base..base + |s| + 1])
    modifies rowPtr
    ensures rowPtr[..base] == old(rowPtr[..base])
    ensures BlockWritten(s, ptr, pending - {i}, rowPtr[base..base + |s| + 1])
  {
    ghost var block := rowPtr[base..base + |s| + 1];
    rowPtr[base + 1 + i] := ptr(end);
    ghost var after := rowPtr[base..base + |s| + 1];
    forall k {:trigger after[k]} | 1 <= k < |after| && k - 1 !in pending - {i}
      ensures after[k] == ptr(PrefixSum(s, k))
    {
      if k != i + 1 {
        assert after[k] == block[k];
      }
    }
  }

  /** The entries of row `i` of one matrix. */
  method WriteEntries<V, W>(row: map<int, V>, i: nat, ghost rows: seq<map<int, V>>, ghost s: seq<nat>, start: nat,
                            matrixOffset: nat, ghost pending: set<int>, indices: array<int>, data: array<W>,
                            store: V -> W)
    requires SizesOf(rows, s) && i < |s| && rows[i] == row && i in pending && start == LineStart(s, matrixOffset, i)
    requires indices as object != data && LineStart(s, matrixOffset, |s|) <= indices.Length == data.Length
    requires RowsStored(rows, s, matrixOffset, pending, indices[..], data[..], store)
    modifies indices, data
    ensures RowsStored(rows, s, matrixOffset, pending - {i}, indices[..], data[..], store)
    ensures SameOutside(matrixOffset, LineStart(s, matrixOffset, |s|), old(indices[..]), indices[..])
    ensures SameOutside(matrixOffset, LineStart(s, matrixOffset, |s|), old(data[..]), data[..])
  {
    LineInside(s, matrixOffset, i);
    ghost var ind, dat := indices[..], data[..];
    WriteRow(row, start, indices, data, store);
    OtherRowsKept(rows, s, matrixOffset, i, pending, ind, dat, indices[..], data[..], store);
  }

  /** Row `i` of one matrix: its entries and its pointer. */
  method WriteRowAt<V, W>(row: map<int, V>, i: nat, ghost rows: seq<map<int, V>>, ghost s: seq<nat>, ptr: int -> int,
                          size: nat, offset: nat, matrixOffset: nat, ghost pending: set<int>, rowPtr: array<int>,
                          base: nat, indices: array<int>, data: array<W>, store: V -> W)
    requires SizesOf(rows, s) && i < |s| && rows[i] == row && i in pending
    requires size == s[i] && offset == PrefixSum(s, i)
    requires base + |s| + 1 <= rowPtr.Length
    requires rowPtr != indices && rowPtr as object != data && indices as object != data
    requires LineStart(s, matrixOffset, |s|) <= indices.Length == data.Length
    requires BlockWritten(s, ptr, pending, rowPtr[base..base + |s| + 1])
    requires RowsStored(rows, s, matrixOffset, pending, indices[..], data[..], store)
    modifies rowPtr, indices, data
    ensures rowPtr[..base] == old(rowPtr[..base])
    ensures BlockWritten(s, ptr, pending - {i}, rowPtr[base..base + |s| + 1])
    ensures RowsStored(rows, s, matrixOffset, pending - {i}, indices[..], data[..], store)
    ensures SameOutside(matrixOffset, LineStart(s, matrixOffset, |s|), old(indices[..]), indices[..])
    ensures SameOutside(matrixOffset, LineStart(s, matrixOffset, |s|), old(data[..]), data[..])
  {
    WriteEntries(row, i, rows, s, offset + matrixOffset, matrixOffset, pending, indices, data, store);
    SetPointer(s, ptr, pending, rowPtr, base, i, offset + size);
  }

  /** Row `i` of matrix `m` has its size and its offset at index m * nrow + i of the tables. */
  ghost predicate EntryAt(s: seq<nat>, nrow: nat, rowSizes: seq<nat>, rowOffsets: seq<nat>, m: nat, i: nat)
    requires i < |s|
  {
    && 0 <= m * nrow + i < |rowSizes| == |rowOffsets|
    && rowSizes[m * nrow + i] == s[i] && rowOffsets[m * nrow + i] == PrefixSum(s, i)
  }

  /** The tables describe matrix `m`. */
  ghost predicate TablesHold<V>(agg: Aggregate<V>, z: Sizes, m: nat, rowSizes: seq<nat>, rowOffsets: seq<nat>,
                                matrixOffsets: seq<nat>)
    requires m < |z|
  {
    && |z[m]| == |agg| && SizesOf(MatrixRows(agg, m), z[m])
    && m < |matrixOffsets| && matrixOffsets[m] == MatrixStart(z, m)
    && forall i: nat | i < |agg| :: EntryAt(z[m], |agg|, rowSizes, rowOffsets, m, i)
  }

  ghost predicate AllTables<V>(agg: Aggregate<V>, z: Sizes, rowSizes: seq<nat>, rowOffsets: seq<nat>,
                               matrixOffsets: seq<nat>)
  {
    forall m: nat | m < |z| :: TablesHold(agg, z, m, rowSizes, rowOffsets, matrixOffsets)
  }

  lemma TablesComplete<V>(agg: Aggregate<V>, z: Sizes, rowSizes: seq<nat>, rowOffsets: seq<nat>,
                          offsetBlocks: seq<seq<nat>>, matrixOffsets: seq<nat>)
    requires z == RowSizes(agg, |z|) && MatrixOffsets(z, |z|, matrixOffsets)
    requires Tables(z, |z|, rowSizes, rowOffsets, offsetBlocks)
    ensures AllTables(agg, z, rowSizes, rowOffsets, matrixOffsets)
  {
    forall m: nat | m < |z|
      ensures TablesHold(agg, z, m, rowSizes, rowOffsets, matrixOffsets)
    {
      assert z[m] == RowLine(agg, m);
      forall i: nat | i < |agg|
        ensures EntryAt(z[m], |agg|, rowSizes, rowOffsets, m, i)
      {
        TablesAt(z, |agg|, rowSizes, rowOffsets, offsetBlocks, m, i);
      }
    }
  }

  /** The size and the offset of row `i` of matrix `m`, read from the tables. */
  method RowEntry<V>(ghost agg: Aggregate<V>, ghost z: Sizes, nrow: nat, rowSizes: seq<nat>, rowOffsets: seq<nat>,
                     ghost matrixOffsets: seq<nat>, m: nat, i: nat)
    returns (size: nat, offset: nat)
    requires m < |z| && i < nrow == |agg| && TablesHold(agg, z, m, rowSizes, rowOffsets, matrixOffsets)
    ensures size == z[m][i] && offset == PrefixSum(z[m], i)
  {
    assert EntryAt(z[m], nrow, rowSizes, rowOffsets, m, i);
    var rowStart := m * nrow + i;
    size, offset := rowSizes[rowStart], rowOffsets[rowStart];
  }

  /** The pointer before the first row. */
  method StartBlock(ghost s: seq<nat>, ptr: int -> int, rowPtr: array<int>, base: nat)
    requires base + |s| + 1 <= rowPtr.Length
    modifies rowPtr
    ensures rowPtr[..base] == old(rowPtr[..base])
    ensures BlockWritten(s, ptr, Below(|s|), rowPtr[base..base + |s| + 1])
  {
    rowPtr[base] := ptr(0);
  }

  /** The rows of one matrix, in any order. */
  method WriteRows<V, W>(agg: Aggregate<V>, ghost z: Sizes, m: nat, ghost s: seq<nat>, ptr: int -> int,
                         rowSizes: seq<nat>, rowOffsets: seq<nat>, ghost matrixOffsets: seq<nat>,
                         matrixOffset: nat, rowPtr: array<int>, base: nat, indices: array<int>, data: array<W>,
                         store: V -> W)
    requires m < |z| && s == z[m] && TablesHold(agg, z, m, rowSizes, rowOffsets, matrixOffsets)
    requires base + |s| + 1 <= rowPtr.Length
    requires rowPtr != indices && rowPtr as object != data && indices as object != data
    requires LineStart(s, matrixOffset, |s|) <= indices.Length == data.Length
    requires BlockWritten(s, ptr, Below(|s|), rowPtr[base..base + |s| + 1])
    modifies rowPtr, indices, data
    ensures rowPtr[..base] == old(rowPtr[..base])
    ensures BlockWritten(s, ptr, {}, rowPtr[base..base + |s| + 1])
    ensures RowsStored(MatrixRows(agg, m), s, matrixOffset, {}, indices[..], data[..], store)
    ensures SameOutside(matrixOffset, LineStart(s, matrixOffset, |s|), old(indices[..]), indices[..])
    ensures SameOutside(matrixOffset, LineStart(s, matrixOffset, |s|), old(data[..]), data[..])
  {
    ghost var rows := MatrixRows(agg, m);
    var pending := Below(|agg|);
    while pending != {}
      invariant pending <= Below(|agg|)
      invariant rowPtr[..base] == old(rowPtr[..base])
      invariant BlockWritten(s, ptr, pending, rowPtr[base..base + |s| + 1])
      invariant RowsStored(rows, s, matrixOffset, pending, indices[..], data[..], store)
      invariant SameOutside(matrixOffset, LineStart(s, matrixOffset, |s|), old(indices[..]), indices[..])
      invariant SameOutside(matrixOffset, LineStart(s, matrixOffset, |s|), old(data[..]), data[..])
      decreases |pending|
    {
      var i, rest := TakeAny(pending);
      var size, offset := RowEntry(agg, z, |agg|, rowSizes, rowOffsets, matrixOffsets, m, i);
      WriteRowAt(Cell(agg, i, m), i, rows, s, ptr, size, offset, matrixOffset, pending, rowPtr, base, indices, data,
                 store);
      pending := rest;
    }
  }

  lemma BlockClosed(s: seq<nat>, ptr: int -> int, rowPtr: array<int>, base: nat)
    requires base + |s| + 1 <= rowPtr.Length && BlockWritten(s, ptr, {}, rowPtr[base..base + |s| + 1])
    ensures rowPtr[..base + |s| + 1] == rowPtr[..base] + Ptrs(s, |s| + 1, ptr)
  {
    BlockComplete(s, ptr, rowPtr[base..base + |s| + 1]);
    JoinBlock(rowPtr, base, |s| + 1, Ptrs(s, |s| + 1, ptr));
  }

  lemma JoinBlock(rowPtr: array<int>, base: nat, n: nat, block: seq<int>)
    requires base + n <= rowPtr.Length && rowPtr[base..base + n] == block
    ensures rowPtr[..base + n] == rowPtr[..base] + block
  {
  }

  /** One matrix of the CSR output; its rows run in any order. */
  method WriteMatrixRows<V, W>(agg: Aggregate<V>, ghost z: Sizes, m: nat, ptr: int -> int, rowSizes: seq<nat>,
                               rowOffsets: seq<nat>, ghost matrixOffsets: seq<nat>, matrixOffset: nat,
                               rowPtr: array<int>, base: nat, indices: array<int>, data: array<W>, store: V -> W)
    requires m < |z| && TablesHold(agg, z, m, rowSizes, rowOffsets, matrixOffsets)
    requires base + |agg| + 1 <= rowPtr.Length
    requires rowPtr != indices && rowPtr as object != data && indices as object != data
    requires LineStart(z[m], matrixOffset, |z[m]|) <= indices.Length == data.Length
    modifies rowPtr, indices, data
    ensures rowPtr[..base + |agg| + 1] == old(rowPtr[..base]) + Ptrs(z[m], |agg| + 1, ptr)
    ensures RowsStored(MatrixRows(agg, m), z[m], matrixOffset, {}, indices[..], data[..], store)
    ensures SameOutside(matrixOffset, LineStart(z[m], matrixOffset, |z[m]|), old(indices[..]), indices[..])
    ensures SameOutside(matrixOffset, LineStart(z[m], matrixOffset, |z[m]|), old(data[..]), data[..])
  {
    StartBlock(z[m], ptr, rowPtr, base);
    WriteRows(agg, z, m, z[m], ptr, rowSizes, rowOffsets, matrixOffsets, matrixOffset, rowPtr, base, indices, data,
              store);
    BlockClosed(z[m], ptr, rowPtr, base);
  }

  ghost predicate FirstMatricesStored<V, W>(agg: Aggregate<V>, z: Sizes, n: nat,
                                            indices: seq<int>, data: seq<W>, store: V -> W)
    requires n <= |z|
  {
    n == 0 || (FirstMatricesStored(agg, z, n - 1, indices, data, store)
               && RowsStored(MatrixRows(agg, n - 1), z[n - 1], MatrixStart(z, n - 1), {}, indices, data, store))
  }

  lemma {:induction false} FirstMatricesKept<V, W>(agg: Aggregate<V>, z: Sizes, n: nat, lo: int, hi: int,
                                                   rowSizes: seq<nat>, rowOffsets: seq<nat>, matrixOffsets: seq<nat>,
                                                   indices: seq<int>, data: seq<W>,
                                                   indices': seq<int>, data': seq<W>, store: V -> W)
    requires n <= |z| && AllTables(agg, z, rowSizes, rowOffsets, matrixOffsets) && MatrixStart(z, n) <= lo
    requires FirstMatricesStored(agg, z, n, indices, data, store)
    requires SameOutside(lo, hi, indices, indices') && SameOutside(lo, hi, data, data')
    ensures FirstMatricesStored(agg, z, n, indices', data', store)
  {
    if n > 0 {
      MatrixStartMonotone(z, n - 1, n);
      FirstMatricesKept(agg, z, n - 1, lo, hi, rowSizes, rowOffsets, matrixOffsets, indices, data, indices', data',
                        store);
      assert TablesHold(agg, z, n - 1, rowSizes, rowOffsets, matrixOffsets);
      AllRowsKept(MatrixRows(agg, n - 1), z[n - 1], MatrixStart(z, n - 1), lo, hi, indices, data, indices', data',
                  store);
    }
  }

  lemma {:induction false} FirstMatricesInclude<V, W>(agg: Aggregate<V>, z: Sizes, n: nat, m: nat,
                                                      indices: seq<int>, data: seq<W>, store: V -> W)
    requires m < n <= |z| && FirstMatricesStored(agg, z, n, indices, data, store)
    ensures RowsStored(MatrixRows(agg, m), z[m], MatrixStart(z, m), {}, indices, data, store)
  {
    if m < n - 1 {
      FirstMatricesInclude(agg, z, n - 1, m, indices, data, store);
    }
  }

  lemma PointersRoom<V>(agg: Aggregate<V>, z: Sizes, m: nat, ptr: int -> int, rowSizes: seq<nat>,
                        rowOffsets: seq<nat>, matrixOffsets: seq<nat>)
    requires m < |z| && AllTables(agg, z, rowSizes, rowOffsets, matrixOffsets)
    ensures |AllPtrs(z, m, ptr)| + |agg| + 1 <= |AllPtrs(z, |z|, ptr)|
  {
    forall i | 0 <= i < |z|
      ensures |z[i]| == |agg|
    {
      assert TablesHold(agg, z, i, rowSizes, rowOffsets, matrixOffsets);
    }
    PtrRoom(z, m, |z|, |agg|, ptr);
  }

  /** The first `m` matrices are written, and fill the pointers below `base`. */
  ghost predicate Appended<V, W>(agg: Aggregate<V>, z: Sizes, ptr: int -> int, m: nat, rowPtr: array<int>, base: nat,
                                 indices: array<int>, data: array<W>, store: V -> W)
    requires m <= |z|
    reads rowPtr, indices, data
  {
    && base <= rowPtr.Length && rowPtr[..base] == AllPtrs(z, m, ptr)
    && FirstMatricesStored(agg, z, m, indices[..], data[..], store)
  }

  /** Matrix `m` behind the matrices already written. */
  method AppendMatrix<V, W>(agg: Aggregate<V>, ghost z: Sizes, m: nat, ptr: int -> int, rowSizes: seq<nat>,
                            rowOffsets: seq<nat>, matrixOffsets: seq<nat>, rowPtr: array<int>, base: nat,
                            indices: array<int>, data: array<W>, store: V -> W)
    returns (base': nat)
    requires m < |z| && AllTables(agg, z, rowSizes, rowOffsets, matrixOffsets)
    requires rowPtr.Length == |AllPtrs(z, |z|, ptr)|
    requires rowPtr != indices && rowPtr as object != data && indices as object != data
    requires indices.Length == data.Length == MatrixStart(z, |z|)
    requires Appended(agg, z, ptr, m, rowPtr, base, indices, data, store)
    modifies rowPtr, indices, data
    ensures Appended(agg, z, ptr, m + 1, rowPtr, base', indices, data, store)
  {
    base' := base + (|agg| + 1);
    PointersRoom(agg, z, m, ptr, rowSizes, rowOffsets, matrixOffsets);
    assert TablesHold(agg, z, m, rowSizes, rowOffsets, matrixOffsets);
    MatrixStartMonotone(z, m + 1, |z|);
    ghost var ind, dat := indices[..], data[..];
    WriteMatrixRows(agg, z, m, ptr, rowSizes, rowOffsets, matrixOffsets, matrixOffsets[m], rowPtr, base, indices, data,
                    store);
    FirstMatricesKept(agg, z, m, matrixOffsets[m], MatrixStart(z, m + 1), rowSizes, rowOffsets, matrixOffsets, ind, dat,
                      indices[..], data[..], store);
  }

  method WriteMatrices<V, W>(agg: Aggregate<V>, ghost z: Sizes, ptr: int -> int, rowSizes: seq<nat>,
                             rowOffsets: seq<nat>, matrixOffsets: seq<nat>, rowPtr: array<int>, indices: array<int>,
                             data: array<W>, store: V -> W)
    requires AllTables(agg, z, rowSizes, rowOffsets, matrixOffsets) && |matrixOffsets| == |z|
    requires rowPtr.Length == |AllPtrs(z, |z|, ptr)|
    requires rowPtr != indices && rowPtr as object != data && indices as object != data
    requires indices.Length == data.Length == MatrixStart(z, |z|)
    modifies rowPtr, indices, data
    ensures rowPtr[..] == AllPtrs(z, |z|, ptr)
    ensures FirstMatricesStored(agg, z, |z|, indices[..], data[..], store)
  {
    var base: nat := 0;
    var m: nat := 0;
    while m < |matrixOffsets|
      invariant m <= |z| && Appended(agg, z, ptr, m, rowPtr, base, indices, data, store)
    {
      base := AppendMatrix(agg, z, m, ptr, rowSizes, rowOffsets, matrixOffsets, rowPtr, base, indices, data, store);
      m := m + 1;
    }
    PrefixIsAll(rowPtr, base, AllPtrs(z, |z|, ptr));
  }

  /** The CSR output, for every order of a row's keys and of a matrix's rows. It reads position -1 exactly when
      there are several matrices and no rows. */
  method PredictSparseCSR<V, W(0)>(agg: Aggregate<V>, numMatrices: nat, t: PtrType, d: DataType, store: V -> W)
    returns (status: Status, rowPtr: array<int>, indices: array<int>, data: array<W>)
    requires HasMatrices(agg, numMatrices)
    ensures status == if t == UnknownPtr then UnknownPtrType else if d == UnknownData then UnknownDataType
                      else if |agg| == 0 && numMatrices > 1 then IndexMinusOne else Ok
    ensures status == Ok ==> IsCsr(agg, numMatrices, PtrCast(t), rowPtr[..], indices[..], data[..], store)
  {
    rowPtr, indices, data := new int[0], new int[0], new W[0];
    if t == UnknownPtr {
      return UnknownPtrType, rowPtr, indices, data;
    }
    MulMonotone(0, numMatrices, |agg| + 1);
    rowPtr := new int[numMatrices * (|agg| + 1)];
    var elementsSize := CountElements(agg, numMatrices);
    if d == UnknownData {
      return UnknownDataType, rowPtr, indices, data;
    }
    data := new W[elementsSize];
    indices := new int[elementsSize];
    status := FillCsr(agg, numMatrices, PtrCast(t), rowPtr, indices, data, store);
  }

  /** Row tables, pointers and entries into the allocated buffers. */
  method FillCsr<V, W>(agg: Aggregate<V>, numMatrices: nat, ptr: int -> int,
                       rowPtr: array<int>, indices: array<int>, data: array<W>, store: V -> W)
    returns (status: Status)
    requires rowPtr != indices && rowPtr as object != data && indices as object != data
    requires rowPtr.Length == numMatrices * (|agg| + 1)
    requires indices.Length == data.Length == MatrixStart(RowSizes(agg, numMatrices), numMatrices)
    modifies rowPtr, indices, data
    ensures status == if |agg| == 0 && numMatrices > 1 then IndexMinusOne else Ok
    ensures status == Ok ==> IsCsr(agg, numMatrices, ptr, rowPtr[..], indices[..], data[..], store)
  {
    var ok, rowSizes, rowOffsets, matrixOffsets;
    ghost var offsetBlocks;
    ok, rowSizes, rowOffsets, matrixOffsets, offsetBlocks := RowLayout(agg, numMatrices);
    if !ok {
      return IndexMinusOne;
    }
    ghost var z := RowSizes(agg, numMatrices);
    AllPtrsLength(z, numMatrices, |agg|, ptr);
    TablesComplete(agg, z, rowSizes, rowOffsets, offsetBlocks, matrixOffsets);
    WriteMatrices(agg, z, ptr, rowSizes, rowOffsets, matrixOffsets, rowPtr, indices, data, store);
    forall m: nat | m < numMatrices
      ensures RowsStored(MatrixRows(agg, m), z[m], MatrixStart(z, m), {}, indices[..], data[..], store)
    {
      FirstMatricesInclude(agg, z, numMatrices, m, indices[..], data[..], store);
    }
    status := Ok;
  }
}
