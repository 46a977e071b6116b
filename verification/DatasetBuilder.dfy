/** Chunked dataset construction (DeviceDatasetBuilder) and the one-shot FLC_DatasetCreateFromMats it must agree with.
    A device gather is modelled as the host gather, and the device binner as writing rows at an offset. */
module DatasetBuilder {
  import opened Blocks
  import opened DenseMatrix
  import opened DenseSampling
  import opened Doubles
  import opened MissingSentinel
  import opened RowPush

  datatype Status = Done | NotCuda | UnsupportedType | EmptyShape | SamplingWithReference | SamplingAfterPush
                  | BadSentinel | EmptyChunk | TooManyRows | SamplingIncomplete | PushIncomplete | NoMatrices
                  | TotalTooLarge

  /** What the dataset offers for device binning: nothing, a binner, or a binner checked against the host loops. */
  datatype Binner = NoBinner | Binner | VerifyingBinner

  /** The sample the bins are built from, and the rows received through the host loops and through the binner. */
  datatype Dataset = Dataset(values: seq<seq<Double>>, idx: seq<seq<nat>>, hostRows: Log, binnerRows: Log)

  function EmptyLog(n: nat): (log: Log)
    ensures |log| == n && forall i {:trigger log[i]} | 0 <= i < n :: log[i] == []
  {
    if n == 0 then [] else EmptyLog(n - 1) + [[]]
  }

  /** `values` and `idx` are the sample of the given rows with the missing sentinel rewritten. */
  ghost predicate IsDatasetSample(rows: Rows2D, ncol: nat, sample: seq<int>, sentinel: Double,
                                  values: seq<seq<Double>>, idx: seq<seq<nat>>)
    requires ValidIndices(sample, |rows|)
  {
    && |values| == |idx| == ncol
    && forall c {:trigger values[c]} {:trigger idx[c]} | 0 <= c < ncol ::
         && Rewritten(sentinel, Values(Picked(rows, sample), c, |sample|), values[c])
         && idx[c] == Indices(Picked(rows, sample), c, |sample|)
  }

  /** The sample is determined by the rows. */
  lemma DatasetSampleUnique(rows: Rows2D, ncol: nat, sample: seq<int>, sentinel: Double, values: seq<seq<Double>>,
                            idx: seq<seq<nat>>, values': seq<seq<Double>>, idx': seq<seq<nat>>)
    requires ValidIndices(sample, |rows|)
    requires IsDatasetSample(rows, ncol, sample, sentinel, values, idx)
    requires IsDatasetSample(rows, ncol, sample, sentinel, values', idx')
    ensures values == values' && idx == idx'
  {
    forall c | 0 <= c < ncol
      ensures values[c] == values'[c] && idx[c] == idx'[c]
    {
      RewrittenUnique(sentinel, Values(Picked(rows, sample), c, |sample|), values[c], values'[c]);
    }
  }

  /** Sampling followed by the sentinel rewrite. */
  method SampleAndRewrite(ms: seq<Matrix>, ncol: nat, sample: seq<int>, sentinel: Double, numThreads: nat)
    returns (values: seq<seq<Double>>, idx: seq<seq<nat>>)
    requires numThreads > 0 && ValidMatrices(ms, ncol) && ValidIndices(sample, |Concat(ms, ncol)|)
    ensures IsDatasetSample(Concat(ms, ncol), ncol, sample, sentinel, values, idx)
  {
    var raw;
    raw, idx := SampleDense(ms, ncol, sample, numThreads);
    values := ApplyMissingSentinelToSample(sentinel, raw);
  }

  // ---------------------------------------------------------------- one shot

  /** The sum of the row counts, up to the first sum that leaves the 32-bit range. */
  method SumRows(ms: seq<Matrix>, ncol: nat) returns (total: nat, overflow: bool)
    ensures overflow <==> |Concat(ms, ncol)| > INT32_MAX
    ensures !overflow ==> total == |Concat(ms, ncol)|
  {
    total, overflow := 0, false;
    ConcatLength(ms, ncol);
    for j := 0 to |ms|
      invariant total == Offset(ms, j) <= INT32_MAX && !overflow
    {
      total := total + ms[j].nrow;
      if total > INT32_MAX {
        OffsetGrows(ms, j + 1);
        return total, true;
      }
    }
  }

  lemma {:induction false} OffsetGrows(ms: seq<Matrix>, j: nat)
    requires j <= |ms|
    ensures Offset(ms, j) <= Offset(ms, |ms|)
    decreases |ms| - j
  {
    if j < |ms| {
      OffsetGrows(ms, j + 1);
    }
  }

  /** FLC_DatasetCreateFromMats on host matrices: sample (unless a reference fixes the bins), then push every matrix.
      `overflow` reports that the 32-bit sum of the row counts overflows; nothing is known about the result then. */
  method CreateFromMats(ms: seq<Matrix>, ncol: nat, hasReference: bool, sample: seq<int>, sentinel: Double,
                        numThreads: nat)
    returns (ds: Dataset, overflow: bool)
    requires numThreads > 0 && ValidMatrices(ms, ncol)
    requires |Concat(ms, ncol)| <= INT32_MAX ==> ValidIndices(sample, |Concat(ms, ncol)|)
    ensures overflow <==> |Concat(ms, ncol)| > INT32_MAX
    ensures !overflow && !hasReference ==> IsDatasetSample(Concat(ms, ncol), ncol, sample, sentinel, ds.values, ds.idx)
    ensures !overflow && hasReference ==> ds.values == [] && ds.idx == []
    ensures !overflow ==> OnceUpTo(ds.hostRows, Concat(ms, ncol), |Concat(ms, ncol)|)
    ensures !overflow ==> ds.binnerRows == EmptyLog(|Concat(ms, ncol)|)
  {
    var total;
    total, overflow := SumRows(ms, ncol);
    if overflow {
      ds := Dataset([], [], [], []);
      return;
    }
    var values, idx := [], [];
    if !hasReference {
      values, idx := SampleAndRewrite(ms, ncol, sample, sentinel, numThreads);
    }
    var log := PushMatrices(ms, ncol, total);
    ds := Dataset(values, idx, log, EmptyLog(total));
  }

  /** Every matrix pushed behind the earlier ones. */
  method PushMatrices(ms: seq<Matrix>, ncol: nat, total: nat) returns (log: Log)
    requires ValidMatrices(ms, ncol) && total == |Concat(ms, ncol)|
    ensures OnceUpTo(log, Concat(ms, ncol), total)
  {
    log := EmptyLog(total);
    var startRow: nat := 0;
    for j := 0 to |ms|
      invariant startRow == |Concat(ms[..j], ncol)| <= total
      invariant OnceUpTo(log, Concat(ms[..j], ncol), total)
    {
      PrefixGrows(ms, ncol, j);
      log := PushAt(log, ms[j], ncol, startRow, Concat(ms[..j], ncol), total);
      startRow := startRow + ms[j].nrow;
    }
    assert ms[..|ms|] == ms;
  }

  /** One matrix pushed behind the rows already there. */
  method PushAt(log: Log, m: Matrix, ncol: nat, base: nat, ghost rows: seq<Row>, ghost total: nat) returns (log': Log)
    requires OnceUpTo(log, rows, total) && base == |rows| && base + m.nrow <= total
    ensures OnceUpTo(log', rows + Rows(m, ncol), total)
  {
    log' := PushRows(log, m, ncol, base, Rows(m, ncol));
    OnceStep(log, rows, total, Rows(m, ncol), log');
  }

  lemma {:induction false} ConcatPrefix(ms: seq<Matrix>, ncol: nat, j: nat)
    requires j <= |ms|
    ensures |Concat(ms[..j], ncol)| <= |Concat(ms, ncol)|
  {
    if j < |ms| {
      var init := ms[..|ms| - 1];
      ConcatPrefix(init, ncol, j);
      assert init[..j] == ms[..j];
    } else {
      assert ms[..j] == ms;
    }
  }

  lemma PrefixGrows(ms: seq<Matrix>, ncol: nat, j: nat)
    requires j < |ms|
    ensures Concat(ms[..j + 1], ncol) == Concat(ms[..j], ncol) + Rows(ms[j], ncol)
    ensures |Concat(ms[..j], ncol)| + ms[j].nrow <= |Concat(ms, ncol)|
  {
    assert ms[..j + 1][..j] == ms[..j];
    ConcatPrefix(ms, ncol, j + 1);
  }

  // ---------------------------------------------------------------- gathering sampled rows

  /** The first `n` of the chunk-local rows `local`. */
  ghost function LocalRows(rows: Rows2D, local: seq<nat>, n: nat): (s: Rows2D)
    requires n <= |local| && forall i {:trigger local[i]} | 0 <= i < |local| :: local[i] < |rows|
    ensures |s| == n && forall i {:trigger s[i]} | 0 <= i < n :: s[i] == rows[local[i]]
  {
    if n == 0 then [] else LocalRows(rows, local, n - 1) + [rows[local[n - 1]]]
  }

  /** Copies one row into the block, element by element from a column-major chunk. */
  method CopyRow(m: Matrix, ncol: nat, r: nat, dst: array<Elem>, at: nat)
    requires ValidMatrix(m, ncol) && r < m.nrow && at + ncol <= dst.Length
    modifies dst
    ensures dst[..at + ncol] == old(dst[..at]) + RowOf(m, ncol, r)
  {
    if m.rowMajor {
      RowSlice(m, ncol, r);
      forall k | 0 <= k < ncol {
        dst[at + k] := m.data[r * ncol + k];
      }
      assert dst[at..at + ncol] == m.data[r * ncol..r * ncol + ncol];
      assert dst[..at + ncol] == dst[..at] + dst[at..at + ncol];
    } else {
      ghost var row := RowOf(m, ncol, r);
      for c := 0 to ncol
        invariant dst[..at + c] == old(dst[..at]) + row[..c]
      {
        ColumnMajorIndex(m, ncol, r, c);
        dst[at + c] := m.data[m.nrow * c + r];
        assert dst[..at + c + 1] == dst[..at + c] + [dst[at + c]];
        assert row[..c + 1] == row[..c] + [row[c]];
      }
      assert row[..ncol] == row;
    }
  }

  /** The sampled rows of a chunk, copied behind the block's first `at` elements. */
  method GatherHostRows(m: Matrix, ncol: nat, local: seq<nat>, ghost extra: Rows2D, dst: array<Elem>, at: nat)
    requires ValidMatrix(m, ncol) && at + |local| * ncol <= dst.Length && |extra| == |local|
    requires forall i {:trigger local[i]} | 0 <= i < |local| ::
               local[i] < m.nrow && extra[i] == RowOf(m, ncol, local[i])
    modifies dst
    ensures old(dst[..at]) + Flatten(extra) <= dst[..]
  {
    var p: nat := at;
    for i := 0 to |local|
      invariant p + RestSize(|local| - i, ncol) == at + |local| * ncol
      invariant at <= p <= dst.Length && dst[..p] == old(dst[..at]) + Flatten(extra[..i])
    {
      RowRoom(|local| - i - 1, ncol);
      CopyRow(m, ncol, local[i], dst, p);
      FlattenTake(extra, i);
      p := p + ncol;
    }
    assert extra[..|local|] == extra;
  }

  /** The elements of `left` rows. */
  ghost function RestSize(left: nat, ncol: nat): int {
    left * ncol
  }

  lemma RowRoom(left: nat, ncol: nat)
    ensures RestSize(left + 1, ncol) == RestSize(left, ncol) + ncol && RestSize(left, ncol) >= 0
  {
  }

  // ---------------------------------------------------------------- the chunk walk

  /** `local` are the sample indices from `pos` on, relative to the chunk of `nrow` rows at `cursor`. */
  ghost predicate LocalOf(sample: seq<int>, pos: nat, cursor: nat, nrow: nat, local: seq<nat>) {
    && pos + |local| <= |sample|
    && forall i {:trigger local[i]} | 0 <= i < |local| :: local[i] < nrow && cursor + local[i] == sample[pos + i]
  }

  /** The global sample indices that fall into rows [cursor, cursor + nrow), made chunk-local. */
  method LocalSample(sample: seq<int>, pos: nat, cursor: nat, nrow: nat, ghost total: nat)
    returns (pos': nat, local: seq<nat>)
    requires ValidIndices(sample, total) && pos <= |sample|
    requires pos < |sample| ==> cursor <= sample[pos]
    ensures pos <= pos' <= |sample| && |local| == pos' - pos
    ensures LocalOf(sample, pos, cursor, nrow, local)
    ensures pos' < |sample| ==> cursor + nrow <= sample[pos']
  {
    pos', local := pos, [];
    while pos' < |sample| && sample[pos'] < cursor + nrow
      invariant pos <= pos' <= |sample| && |local| == pos' - pos
      invariant pos' < |sample| ==> cursor <= sample[pos']
      invariant LocalOf(sample, pos, cursor, nrow, local)
    {
      local := local + [sample[pos'] - cursor];
      if pos' + 1 < |sample| {
        IncreasingAt(sample, pos');
      }
      pos' := pos' + 1;
    }
  }

  /** `picked` are the rows named by the first sample indices. */
  ghost predicate PicksOf(rows: Rows2D, sample: seq<int>, picked: Rows2D) {
    && InRange(sample, |picked|, |rows|)
    && forall i {:trigger picked[i]} | 0 <= i < |picked| :: picked[i] == rows[sample[i]]
  }

  /** `extra` are the rows of `more` named by the sample indices from `pos` on. */
  ghost predicate NextPicks(n: nat, more: Rows2D, sample: seq<int>, pos: nat, extra: Rows2D) {
    && pos + |extra| <= |sample|
    && forall i {:trigger extra[i]} | 0 <= i < |extra| :: NamedBy(n, more, sample[pos + i], extra[i])
  }

  /** `row` is stacked row `index`, where `more` starts at stacked row `n`. */
  ghost predicate NamedBy(n: nat, more: Rows2D, index: int, row: seq<Elem>) {
    n <= index < n + |more| && row == more[index - n]
  }

  lemma PicksExtend(rows: Rows2D, more: Rows2D, sample: seq<int>, picked: Rows2D, extra: Rows2D)
    requires PicksOf(rows, sample, picked) && NextPicks(|rows|, more, sample, |picked|, extra)
    ensures PicksOf(rows + more, sample, picked + extra)
  {
    var all := rows + more;
    forall i {:trigger sample[i]} | 0 <= i < |picked + extra|
      ensures 0 <= sample[i] < |all| && (picked + extra)[i] == all[sample[i]]
    {
      if i < |picked| {
        var e := picked[i];
      } else {
        assert NamedBy(|rows|, more, sample[i], extra[i - |picked|]);
      }
    }
  }

  /** `extra` are the rows of `more` named by `local`. */
  ghost predicate RowsAt(more: Rows2D, local: seq<nat>, extra: Rows2D) {
    && |extra| == |local|
    && forall i {:trigger extra[i]} | 0 <= i < |extra| :: local[i] < |more| && extra[i] == more[local[i]]
  }

  lemma LocalPicks(n: nat, more: Rows2D, sample: seq<int>, pos: nat, local: seq<nat>, extra: Rows2D)
    requires LocalOf(sample, pos, n, |more|, local) && RowsAt(more, local, extra)
    ensures NextPicks(n, more, sample, pos, extra)
  {
  }
}
