/** Pushing dense chunks into a dataset's rows: the host push loops and PushDeviceMatrixViaHost, which re-chunks a
    device matrix in either layout. A log keeps, for every dataset row, the input rows it has received. */
module RowPush {
  import opened Blocks
  import opened DenseMatrix
  import opened Division
  import opened Unordered

  type Row = seq<Elem>
  type Log = seq<seq<Row>>

  const CHUNK_BYTES: nat := 268435456

  /** Dataset rows base, base+1, ... have received `rows`, one each, and the others nothing. */
  ghost predicate Pushed(log: Log, base: nat, rows: seq<Row>, log': Log) {
    && base + |rows| <= |log| == |log'|
    && forall i {:trigger log'[i]} | 0 <= i < |log| ::
         log'[i] == if base <= i < base + |rows| then log[i] + [rows[i - base]] else log[i]
  }

  /** Rows below |rows| have received exactly their own row, the others nothing. */
  ghost predicate OnceUpTo(log: Log, rows: seq<Row>, total: nat) {
    && |rows| <= |log| == total
    && forall i {:trigger log[i]} | 0 <= i < total :: log[i] == if i < |rows| then [rows[i]] else []
  }

  lemma OnceStep(log: Log, rows: seq<Row>, total: nat, chunk: seq<Row>, log': Log)
    requires OnceUpTo(log, rows, total) && Pushed(log, |rows|, chunk, log')
    ensures OnceUpTo(log', rows + chunk, total)
  {
  }

  /** A host push loop: every row of the chunk once, in any order. */
  method PushRows(log: Log, m: Matrix, ncol: nat, base: nat, ghost rows: seq<Row>) returns (log': Log)
    requires base + m.nrow <= |log| && rows == Rows(m, ncol)
    ensures Pushed(log, base, rows, log')
  {
    log' := log;
    var pending := Below(m.nrow);
    while pending != {}
      invariant pending <= Below(m.nrow) && |log'| == |log|
      invariant forall i {:trigger log'[i]} | 0 <= i < |log| ::
                  log'[i] == if base <= i < base + m.nrow && i - base !in pending then log[i] + [rows[i - base]]
                             else log[i]
      decreases |pending|
    {
      var i, rest := TakeAny(pending);
      log' := log'[base + i := log'[base + i] + [RowOf(m, ncol, i)]];
      pending := rest;
    }
  }

  // ---------------------------------------------------------------- host fallback for device matrices

  function Max(a: int, b: int): int {
    if a < b then b else a
  }

  function Min(a: int, b: int): int {
    if a < b then a else b
  }

  /** Rows per host chunk: as many as 256 MB hold, at least one and at most all. */
  function ChunkRows(nrow: nat, rowBytes: nat): (r: nat)
    ensures r >= 1 && (nrow >= 1 ==> r <= nrow)
    ensures r == 1 || r * rowBytes <= 256 * 1024 * 1024
    ensures r < nrow ==> (r + 1) * (if rowBytes == 0 then 1 else rowBytes) > 256 * 1024 * 1024
  {
    var quota := CHUNK_BYTES / Max(rowBytes, 1);
    QuotaFits(Max(rowBytes, 1), quota);
    QuotaFits(Max(rowBytes, 1), Min(nrow, quota));
    Max(1, Min(nrow, quota))
  }

  lemma QuotaFits(w: nat, r: nat)
    requires w >= 1 && r <= CHUNK_BYTES / w
    ensures r * w <= CHUNK_BYTES && (r == CHUNK_BYTES / w ==> (r + 1) * w > CHUNK_BYTES)
  {
  }

  /** Rows [start, start + n) of `m` as a matrix of the same layout: one contiguous copy, or one strip per column. */
  method CopyRows(m: Matrix, ncol: nat, start: nat, n: nat) returns (chunk: Matrix)
    requires ValidMatrix(m, ncol) && start + n <= m.nrow
    ensures chunk.nrow == n && chunk.rowMajor == m.rowMajor && ValidMatrix(chunk, ncol)
    ensures Rows(chunk, ncol) == Rows(m, ncol)[start..start + n]
  {
    MulMonotone(0, start, ncol);
    MulMonotone(start, start + n, ncol);
    MulMonotone(start + n, m.nrow, ncol);
    if m.rowMajor {
      chunk := Matrix(m.data[start * ncol..(start + n) * ncol], n, true);
      RowMajorCopy(m, ncol, start, n, chunk);
    } else {
      var data: seq<Elem> := [];
      ghost var strips: seq<seq<Elem>> := [];
      for c := 0 to ncol
        invariant |strips| == c && data == Flatten(strips)
        invariant forall k {:trigger strips[k]} | 0 <= k < c :: IsStrip(m, ncol, start, n, k, strips[k])
      {
        StripInside(m, ncol, start, n, c);
        var strip := m.data[m.nrow * c + start..m.nrow * c + start + n];
        assert (strips + [strip])[..c] == strips;
        strips := strips + [strip];
        data := data + strip;
      }
      chunk := Matrix(data, n, false);
      ColumnMajorCopy(m, ncol, start, n, strips, chunk);
    }
  }

  lemma RowMajorRow(m: Matrix, ncol: nat, start: nat, n: nat, chunk: Matrix, r: nat)
    requires ValidMatrix(m, ncol) && m.rowMajor && start + n <= m.nrow && r < n
    requires 0 <= start * ncol <= (start + n) * ncol <= |m.data|
    requires chunk == Matrix(m.data[start * ncol..(start + n) * ncol], n, true) && ValidMatrix(chunk, ncol)
    ensures RowOf(chunk, ncol, r) == RowOf(m, ncol, start + r)
  {
    RowSlice(chunk, ncol, r);
    RowSlice(m, ncol, start + r);
    var from := start * ncol;
    MulSum(start, r, ncol);
    assert chunk.data[r * ncol..r * ncol + ncol] == m.data[from + r * ncol..from + r * ncol + ncol];
  }

  lemma RowMajorCopy(m: Matrix, ncol: nat, start: nat, n: nat, chunk: Matrix)
    requires ValidMatrix(m, ncol) && m.rowMajor && start + n <= m.nrow
    requires 0 <= start * ncol <= (start + n) * ncol <= |m.data|
    requires chunk == Matrix(m.data[start * ncol..(start + n) * ncol], n, true)
    ensures ValidMatrix(chunk, ncol) && Rows(chunk, ncol) == Rows(m, ncol)[start..start + n]
  {
    assert (start + n) * ncol == start * ncol + n * ncol;
    forall r {:trigger RowOf(chunk, ncol, r)} | 0 <= r < n
      ensures RowOf(chunk, ncol, r) == RowOf(m, ncol, start + r)
    {
      RowMajorRow(m, ncol, start, n, chunk, r);
    }
    SameRows(m, ncol, start, n, chunk);
  }

  lemma SameRows(m: Matrix, ncol: nat, start: nat, n: nat, chunk: Matrix)
    requires start + n <= m.nrow && chunk.nrow == n
    requires forall r {:trigger RowOf(chunk, ncol, r)} | 0 <= r < n ::
               RowOf(chunk, ncol, r) == RowOf(m, ncol, start + r)
    ensures Rows(chunk, ncol) == Rows(m, ncol)[start..start + n]
  {
  }

  /** `strip` is the part of column `c` that lies in the chunk. */
  ghost predicate IsStrip(m: Matrix, ncol: nat, start: nat, n: nat, c: int, strip: seq<Elem>) {
    && |strip| == n
    && forall r {:trigger strip[r]} | 0 <= r < n :: strip[r] == At(m, ncol, start + r, c)
  }

  lemma StripInside(m: Matrix, ncol: nat, start: nat, n: nat, c: nat)
    requires ValidMatrix(m, ncol) && !m.rowMajor && c < ncol && start + n <= m.nrow
    ensures 0 <= m.nrow * c + start <= m.nrow * c + start + n <= |m.data|
    ensures IsStrip(m, ncol, start, n, c, m.data[m.nrow * c + start..m.nrow * c + start + n])
  {
    MulStep(c, m.nrow);
    MulMonotone(0, c, m.nrow);
    MulMonotone(c + 1, ncol, m.nrow);
  }

  lemma ColumnMajorRow(m: Matrix, ncol: nat, start: nat, n: nat, strips: seq<seq<Elem>>, chunk: Matrix, r: nat)
    requires Uniform(strips, n) && |strips| == ncol && chunk == Matrix(Flatten(strips), n, false) && r < n
    requires forall k {:trigger strips[k]} | 0 <= k < ncol :: IsStrip(m, ncol, start, n, k, strips[k])
    ensures RowOf(chunk, ncol, r) == RowOf(m, ncol, start + r)
  {
    var a, b := RowOf(chunk, ncol, r), RowOf(m, ncol, start + r);
    forall c | 0 <= c < ncol
      ensures a[c] == b[c]
    {
      FlattenAt(strips, n, c, r);
      assert n * c + r == c * n + r;
      assert strips[c][r] == At(m, ncol, start + r, c);
    }
  }

  lemma ColumnMajorCopy(m: Matrix, ncol: nat, start: nat, n: nat, strips: seq<seq<Elem>>, chunk: Matrix)
    requires start + n <= m.nrow && |strips| == ncol && chunk == Matrix(Flatten(strips), n, false) && !m.rowMajor
    requires forall k {:trigger strips[k]} | 0 <= k < ncol :: IsStrip(m, ncol, start, n, k, strips[k])
    ensures ValidMatrix(chunk, ncol) && Rows(chunk, ncol) == Rows(m, ncol)[start..start + n]
  {
    assert Uniform(strips, n);
    FlattenLength(strips, n);
    assert ncol * n == n * ncol;
    forall r {:trigger RowOf(chunk, ncol, r)} | 0 <= r < n
      ensures RowOf(chunk, ncol, r) == RowOf(m, ncol, start + r)
    {
      ColumnMajorRow(m, ncol, start, n, strips, chunk, r);
    }
    SameRows(m, ncol, start, n, chunk);
  }

  /** Where the chunk loop's row cursor ends: the first multiple of the chunk size not below nrow. */
  function CursorEnd(nrow: nat, chunkRows: nat): nat
    requires chunkRows >= 1
  {
    MulMonotone(0, (nrow + chunkRows - 1) / chunkRows, chunkRows);
    (nrow + chunkRows - 1) / chunkRows * chunkRows
  }

  lemma PartPushed(log: Log, base: nat, rows: seq<Row>, start: nat, n: nat, part: seq<Row>, log1: Log, log2: Log)
    requires start + n <= |rows| && base + |rows| <= |log| && part == rows[start..start + n]
    requires Pushed(log, base, rows[..start], log1) && Pushed(log1, base + start, part, log2)
    ensures Pushed(log, base, rows[..start + n], log2)
  {
  }

  /** One iteration of the chunk loop: rows [start, start + n) copied to the host and pushed behind the earlier ones. */
  method PushPart(log: Log, m: Matrix, ncol: nat, base: nat, start: nat, n: nat, ghost rows: seq<Row>,
                  ghost first: Log)
    returns (log': Log)
    requires ValidMatrix(m, ncol) && start + n <= m.nrow && rows == Rows(m, ncol)
    requires base + |rows| <= |first| && Pushed(first, base, rows[..start], log)
    ensures Pushed(first, base, rows[..start + n], log')
  {
    var chunk := CopyRows(m, ncol, start, n);
    ghost var part := Rows(chunk, ncol);
    log' := PushRows(log, chunk, ncol, base + start, part);
    PartPushed(first, base, rows, start, n, part, log, log');
  }

  /** The host fallback. `overflow` reports that `start_row += chunk_rows` leaves the 32-bit range of the cursor. By
      then all rows have been pushed (`reached`), but the behaviour is undefined from there on, so nothing is known
      about the log any more. */
  method PushDeviceMatrixViaHost(log: Log, m: Matrix, ncol: nat, elemSize: nat, base: nat)
    returns (log': Log, overflow: bool, ghost reached: Log)
    requires ValidMatrix(m, ncol) && base + m.nrow <= |log| && m.nrow <= INT32_MAX
    ensures overflow <==> CursorPasses(m, ncol, elemSize)
    ensures Pushed(log, base, Rows(m, ncol), reached)
    ensures !overflow ==> log' == reached
  {
    var chunkRows := ChunkRows(m.nrow, RowBytes(ncol, elemSize));
    var startRow: nat := 0;
    ghost var steps: nat := 0;
    log', overflow := log, false;
    ghost var rows := Rows(m, ncol);
    assert rows[..0] == [];
    while startRow < m.nrow && !overflow
      invariant startRow < m.nrow + chunkRows && IsMultiple(startRow, steps, chunkRows)
      invariant Pushed(log, base, rows[..Min(startRow, m.nrow)], log')
      invariant overflow <==> startRow > INT32_MAX
      decreases m.nrow + chunkRows - startRow
    {
      var n := Min(chunkRows, m.nrow - startRow);
      log' := PushPart(log', m, ncol, base, startRow, n, rows, log);
      MultipleStep(startRow, steps, chunkRows);
      startRow, steps := startRow + chunkRows, steps + 1;
      overflow := startRow > INT32_MAX;
    }
    assert rows[..m.nrow] == rows;
    CursorEndIs(m.nrow, chunkRows, startRow, steps);
    reached := log';
    if overflow {
      log' := *;
    }
  }

  /** The chunk loop's cursor leaves the 32-bit range. */
  ghost predicate CursorPasses(m: Matrix, ncol: nat, elemSize: nat) {
    CursorEnd(m.nrow, ChunkRows(m.nrow, RowBytes(ncol, elemSize))) > INT32_MAX
  }

  function RowBytes(ncol: nat, elemSize: nat): (r: nat)
    ensures r == ncol * elemSize
  {
    MulMonotone(0, ncol, elemSize);
    ncol * elemSize
  }

  ghost predicate IsMultiple(x: int, q: nat, n: nat) {
    x == q * n
  }

  lemma MultipleStep(x: int, q: nat, n: nat)
    requires IsMultiple(x, q, n)
    ensures IsMultiple(x + n, q + 1, n)
  {
  }

  lemma CursorEndIs(nrow: nat, chunkRows: nat, end: nat, steps: nat)
    requires chunkRows >= 1 && IsMultiple(end, steps, chunkRows) && nrow <= end < nrow + chunkRows
    ensures CursorEnd(nrow, chunkRows) == end
  {
    var q := (nrow + chunkRows - 1) / chunkRows;
    MulStep(q, chunkRows);
    MulStep(steps, chunkRows);
    if q < steps {
      MulMonotone(q + 1, steps, chunkRows);
    } else if q > steps {
      MulMonotone(steps + 1, q, chunkRows);
    }
  }

  /** 2^31 - 1 rows of one byte: eight chunks of 2^28 rows, and the cursor ends at 2^31. */
  lemma CursorOverflows()
    ensures CursorEnd(INT32_MAX, ChunkRows(INT32_MAX, 1)) > INT32_MAX
  {
  }

  /** The cursor never overflows on a matrix copied in one chunk, nor on one that leaves a chunk of headroom. */
  lemma CursorSafe(nrow: nat, rowBytes: nat)
    requires nrow <= INT32_MAX
    requires ChunkRows(nrow, rowBytes) == nrow || nrow + ChunkRows(nrow, rowBytes) <= INT32_MAX + 1
    ensures CursorEnd(nrow, ChunkRows(nrow, rowBytes)) <= INT32_MAX
  {
    var c := ChunkRows(nrow, rowBytes);
    RoundUp(c, nrow);
    if c == nrow {
      DivUnique(c, nrow + c - 1, 1, c - 1);
    }
  }
}
