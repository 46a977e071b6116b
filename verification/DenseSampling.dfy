/** The bin-boundary samplers: the row loop of FLC_DatasetCreateFromMats and the column-parallel SampleDenseSmallInt
    and SampleDenseFloat, all proved to draw the same sample. */
module DenseSampling {
  import opened Blocks
  import opened DenseMatrix
  import opened Doubles
  import opened Unordered

  type Rows2D = seq<seq<Elem>>

  ghost predicate Increasing(sample: seq<int>) {
    |sample| <= 1 || (Increasing(sample[..|sample| - 1]) && sample[|sample| - 2] < sample[|sample| - 1])
  }

  ghost predicate InRange(sample: seq<int>, n: nat, total: nat) {
    n <= |sample| && forall i {:trigger sample[i]} | 0 <= i < n :: 0 <= sample[i] < total
  }

  /** Sample indices are strictly ascending row numbers of the stacked input. */
  ghost predicate ValidIndices(sample: seq<int>, total: nat) {
    Increasing(sample) && InRange(sample, |sample|, total)
  }

  lemma IncreasingAppend(sample: seq<int>, x: int)
    requires Increasing(sample) && (sample == [] || sample[|sample| - 1] < x)
    ensures Increasing(sample + [x])
  {
  }

  lemma {:induction false} IncreasingAt(sample: seq<int>, i: nat)
    requires Increasing(sample) && i + 1 < |sample|
    ensures sample[i] < sample[i + 1]
  {
    if i + 2 < |sample| {
      IncreasingAt(sample[..|sample| - 1], i);
    }
  }

  /** The first `n` sampled rows. */
  ghost function PickedTo(rows: Rows2D, sample: seq<int>, n: nat): (s: Rows2D)
    requires InRange(sample, n, |rows|)
    ensures |s| == n && forall i {:trigger s[i]} | 0 <= i < n :: s[i] == rows[sample[i]]
  {
    if n == 0 then [] else PickedTo(rows, sample, n - 1) + [rows[sample[n - 1]]]
  }

  ghost function Picked(rows: Rows2D, sample: seq<int>): (s: Rows2D)
    requires ValidIndices(sample, |rows|)
    ensures |s| == |sample|
  {
    PickedTo(rows, sample, |sample|)
  }

  // ---------------------------------------------------------------- the sample, column by column

  function CellAt(rows: Rows2D, i: int, c: int): Elem {
    if 0 <= i < |rows| && 0 <= c < |rows[i]| then rows[i][c] else ZERO
  }

  /** The kept values of column `c` in the first `n` sampled rows, in sample order. */
  function Values(rows: Rows2D, c: int, n: nat): seq<Double> {
    if n == 0 then []
    else Values(rows, c, n - 1) + if Kept(CellAt(rows, n - 1, c)) then [Decode(CellAt(rows, n - 1, c))] else []
  }

  /** The sample positions those values come from. */
  function Indices(rows: Rows2D, c: int, n: nat): (s: seq<nat>)
    ensures |s| == |Values(rows, c, n)|
  {
    if n == 0 then []
    else Indices(rows, c, n - 1) + if Kept(CellAt(rows, n - 1, c)) then [n - 1] else []
  }

  /** The complete sample of `picked`. */
  ghost predicate IsSample(picked: Rows2D, ncol: nat, values: seq<seq<Double>>, idx: seq<seq<nat>>) {
    && |values| == |idx| == ncol
    && forall c {:trigger values[c]} {:trigger idx[c]} | 0 <= c < ncol ::
         values[c] == Values(picked, c, |picked|) && idx[c] == Indices(picked, c, |picked|)
  }

  lemma SampleUnique(picked: Rows2D, ncol: nat, values: seq<seq<Double>>, idx: seq<seq<nat>>,
                     values': seq<seq<Double>>, idx': seq<seq<nat>>)
    requires IsSample(picked, ncol, values, idx) && IsSample(picked, ncol, values', idx')
    ensures values == values' && idx == idx'
  {
  }

  /** `positions` are the rows below `n` whose cell in column `c` is kept, ascending, and `values` their values. */
  ghost predicate Lists(picked: Rows2D, c: int, n: nat, values: seq<Double>, positions: seq<nat>) {
    && |values| == |positions|
    && (forall k {:trigger positions[k]} {:trigger values[k]} | 0 <= k < |positions| ::
          positions[k] < n && Kept(CellAt(picked, positions[k], c))
          && values[k] == Decode(CellAt(picked, positions[k], c)))
    && (forall k, l {:trigger positions[k], positions[l]} | 0 <= k < l < |positions| :: positions[k] < positions[l])
    && (forall i: nat {:trigger CellAt(picked, i, c)} | i < n && Kept(CellAt(picked, i, c)) :: i in positions)
  }

  lemma ListsNext(picked: Rows2D, c: int, n: nat, values: seq<Double>, positions: seq<nat>,
                  values': seq<Double>, positions': seq<nat>)
    requires Lists(picked, c, n, values, positions)
    requires var e := CellAt(picked, n, c);
             && values' == values + (if Kept(e) then [Decode(e)] else [])
             && positions' == positions + (if Kept(e) then [n] else [])
    ensures Lists(picked, c, n + 1, values', positions')
  {
    forall i: nat {:trigger CellAt(picked, i, c)} | i < n + 1 && Kept(CellAt(picked, i, c))
      ensures i in positions'
    {
      if i == n {
        assert positions'[|positions|] == n;
      } else {
        assert i in positions;
      }
    }
  }

  lemma {:induction false} SampleLists(picked: Rows2D, c: int, n: nat)
    ensures Lists(picked, c, n, Values(picked, c, n), Indices(picked, c, n))
  {
    if n > 0 {
      var values, positions := Values(picked, c, n - 1), Indices(picked, c, n - 1);
      SampleLists(picked, c, n - 1);
      ListsNext(picked, c, n - 1, values, positions, Values(picked, c, n), Indices(picked, c, n));
    }
  }

  /** What a sample holds, whatever the elements: entry k of column c is the value of the k-th of those sampled cells
      that pass the filter. */
  lemma SampleMeaning(rows: Rows2D, ncol: nat, sample: seq<int>, values: seq<seq<Double>>, idx: seq<seq<nat>>, c: nat)
    requires ValidIndices(sample, |rows|) && Uniform(rows, ncol) && ValidRows(rows) && c < ncol
    requires IsSample(Picked(rows, sample), ncol, values, idx)
    ensures |values[c]| == |idx[c]|
    ensures forall k | 0 <= k < |idx[c]| ::
              idx[c][k] < |sample| && values[c][k] == Decode(rows[sample[idx[c][k]]][c])
    ensures forall k, l | 0 <= k < l < |idx[c]| :: idx[c][k] < idx[c][l]
    ensures forall i: nat | i < |sample| :: i in idx[c] <==> Passes(Decode(rows[sample[i]][c]))
  {
    var picked := Picked(rows, sample);
    SampleLists(picked, c, |picked|);
    forall i: nat | i < |sample|
      ensures CellAt(picked, i, c) == rows[sample[i]][c]
      ensures Kept(CellAt(picked, i, c)) <==> Passes(Decode(rows[sample[i]][c]))
    {
      assert picked[i] == rows[sample[i]] && ValidElem(rows[sample[i]][c]);
      KeptIffPasses(rows[sample[i]][c]);
    }
    forall i: nat | i < |sample|
      ensures i in idx[c] <==> Passes(Decode(rows[sample[i]][c]))
    {
      if i in idx[c] {
        var k :| 0 <= k < |idx[c]| && idx[c][k] == i;
        assert Kept(CellAt(picked, idx[c][k], c));
      }
    }
  }

  /** For integers: the sampled numbers themselves, of exactly the nonzero cells. */
  lemma IntegerSample(rows: Rows2D, ncol: nat, sample: seq<int>, values: seq<seq<Double>>, idx: seq<seq<nat>>, c: nat)
    requires ValidIndices(sample, |rows|) && Uniform(rows, ncol) && ValidRows(rows) && c < ncol
    requires forall r | 0 <= r < |rows| :: rows[r][c].SmallInt?
    requires IsSample(Picked(rows, sample), ncol, values, idx)
    ensures |values[c]| == |idx[c]|
    ensures forall k | 0 <= k < |idx[c]| ::
              idx[c][k] < |sample| && values[c][k] == Finite(rows[sample[idx[c][k]]][c].n as real)
    ensures forall k, l | 0 <= k < l < |idx[c]| :: idx[c][k] < idx[c][l]
    ensures forall i: nat | i < |sample| :: i in idx[c] <==> rows[sample[i]][c].n != 0
  {
    SampleMeaning(rows, ncol, sample, values, idx, c);
  }

  // ---------------------------------------------------------------- locating sampled rows

  ghost predicate Located(ms: seq<Matrix>, ncol: nat, picked: Rows2D, n: nat, matOf: seq<nat>, rowOf: seq<nat>)
    requires n <= |picked|
  {
    && |matOf| == |rowOf| == n
    && forall i {:trigger matOf[i]} {:trigger rowOf[i]} | 0 <= i < n ::
         && matOf[i] < |ms| && rowOf[i] < ms[matOf[i]].nrow
         && picked[i] == RowOf(ms[matOf[i]], ncol, rowOf[i])
  }

  /** One step of the ascending walk over the matrices. */
  method LocateRow(ms: seq<Matrix>, ghost ncol: nat, idx: int, offset: nat, j: nat) returns (offset': nat, j': nat)
    requires j < |ms| && offset == Offset(ms, j) <= idx < Offset(ms, |ms|)
    ensures j <= j' < |ms| && offset' == Offset(ms, j') <= idx < offset' + ms[j'].nrow
    ensures idx < |Concat(ms, ncol)| && Concat(ms, ncol)[idx] == RowOf(ms[j'], ncol, idx - offset')
  {
    offset', j' := offset, j;
    while idx - offset' >= ms[j'].nrow
      invariant j <= j' < |ms| && offset' == Offset(ms, j') <= idx
      decreases |ms| - j'
    {
      offset' := offset' + ms[j'].nrow;
      j' := j' + 1;
    }
    ConcatAt(ms, ncol, j', idx - offset');
  }

  method LocateRows(ms: seq<Matrix>, ghost ncol: nat, sample: seq<int>) returns (matOf: seq<nat>, rowOf: seq<nat>)
    requires ValidIndices(sample, |Concat(ms, ncol)|)
    ensures Located(ms, ncol, Picked(Concat(ms, ncol), sample), |sample|, matOf, rowOf)
  {
    matOf, rowOf := [], [];
    var offset, j: nat := 0, 0;
    ghost var picked := Picked(Concat(ms, ncol), sample);
    ConcatLength(ms, ncol);
    for i := 0 to |sample|
      invariant Located(ms, ncol, picked, i, matOf, rowOf)
      invariant |sample| > 0 ==> j < |ms| && offset == Offset(ms, j)
      invariant i < |sample| ==> offset <= sample[i]
    {
      offset, j := LocateRow(ms, ncol, sample[i], offset, j);
      matOf, rowOf := matOf + [j], rowOf + [sample[i] - offset];
      if i + 1 < |sample| {
        IncreasingAt(sample, i);
      }
    }
  }

  // ---------------------------------------------------------------- progress of the samplers

  /** Columns [lo, hi) hold the sample of the first `n` rows. */
  ghost predicate Done(picked: Rows2D, n: nat, lo: int, hi: int, values: seq<seq<Double>>, idx: seq<seq<nat>>) {
    && 0 <= lo <= hi <= |values| == |idx|
    && forall c {:trigger values[c]} {:trigger idx[c]} | lo <= c < hi ::
         values[c] == Values(picked, c, n) && idx[c] == Indices(picked, c, n)
  }

  /** Only columns [lo, hi) changed. */
  ghost predicate OnlyIn<T>(lo: int, hi: int, before: seq<T>, after: seq<T>) {
    && |before| == |after|
    && forall c {:trigger after[c]} | 0 <= c < |before| && !(lo <= c < hi) :: after[c] == before[c]
  }

  /** Appends to list `c` if `keep`. */
  function Push<T>(lists: seq<seq<T>>, c: nat, keep: bool, x: T): (r: seq<seq<T>>)
    requires c < |lists|
    ensures |r| == |lists|
  {
    if keep then lists[c := lists[c] + [x]] else lists
  }

  lemma PushStep(picked: Rows2D, i: nat, lo: nat, c: nat, hi: nat, values: seq<seq<Double>>, idx: seq<seq<nat>>)
    requires lo <= c < hi
    requires Done(picked, i + 1, lo, c, values, idx) && Done(picked, i, c, hi, values, idx)
    ensures var e := CellAt(picked, i, c);
      && Done(picked, i + 1, lo, c + 1, Push(values, c, Kept(e), Decode(e)), Push(idx, c, Kept(e), i))
      && Done(picked, i, c + 1, hi, Push(values, c, Kept(e), Decode(e)), Push(idx, c, Kept(e), i))
  {
  }

  // ---------------------------------------------------------------- the sequential row loop

  ghost predicate ValidRow(row: seq<Elem>) {
    forall c {:trigger row[c]} | 0 <= c < |row| :: ValidElem(row[c])
  }

  /** One row of the sequential loop: decode it and append its passing values. */
  method SampleRow(row: seq<Elem>, i: nat, ghost picked: Rows2D, values: seq<seq<Double>>, idx: seq<seq<nat>>)
    returns (values': seq<seq<Double>>, idx': seq<seq<nat>>)
    requires i < |picked| && picked[i] == row && ValidRow(row) && |values| == |idx| == |row|
    requires Done(picked, i, 0, |row|, values, idx)
    ensures |values'| == |idx'| == |row| && Done(picked, i + 1, 0, |row|, values', idx')
  {
    values', idx' := values, idx;
    for k := 0 to |row|
      invariant |values'| == |idx'| == |row|
      invariant Done(picked, i + 1, 0, k, values', idx') && Done(picked, i, k, |row|, values', idx')
    {
      var value := Decode(row[k]);
      KeptIffPasses(row[k]);
      PushStep(picked, i, 0, k, |row|, values', idx');
      values' := Push(values', k, Passes(value), value);
      idx' := Push(idx', k, Passes(value), i);
    }
  }

  ghost predicate ValidRows(rows: Rows2D) {
    forall r {:trigger rows[r]} | 0 <= r < |rows| :: ValidRow(rows[r])
  }

  function Empties<T>(n: nat): (s: seq<seq<T>>)
    ensures |s| == n && forall c {:trigger s[c]} | 0 <= c < n :: s[c] == []
  {
    if n == 0 then [] else Empties(n - 1) + [[]]
  }

  /** The sampling loop over the rows of several matrices. */
  method SampleSequential(ms: seq<Matrix>, ncol: nat, sample: seq<int>)
    returns (values: seq<seq<Double>>, idx: seq<seq<nat>>)
    requires ValidIndices(sample, |Concat(ms, ncol)|) && ValidRows(Concat(ms, ncol))
    ensures IsSample(Picked(Concat(ms, ncol), sample), ncol, values, idx)
  {
    ghost var picked := Picked(Concat(ms, ncol), sample);
    values, idx := Empties(ncol), Empties(ncol);
    var offset, j: nat := 0, 0;
    ConcatLength(ms, ncol);
    for i := 0 to |sample|
      invariant |values| == |idx| == ncol && Done(picked, i, 0, ncol, values, idx)
      invariant |sample| > 0 ==> j < |ms| && offset == Offset(ms, j)
      invariant i < |sample| ==> offset <= sample[i]
    {
      offset, j := LocateRow(ms, ncol, sample[i], offset, j);
      var row := RowOf(ms[j], ncol, sample[i] - offset);
      values, idx := SampleRow(row, i, picked, values, idx);
      if i + 1 < |sample| {
        IncreasingAt(sample, i);
      }
    }
  }

  // ---------------------------------------------------------------- the column-block parallel samplers

  /** First column of block `b` of `nb`: ncol * b / nb in integer division. */
  function ColLo(ncol: nat, nb: nat, b: nat): nat
    requires nb > 0
  {
    MulMonotone(0, ncol, b);
    ncol * b / nb
  }

  lemma DivMonotone(x: nat, y: nat, n: nat)
    requires x <= y && n > 0
    ensures x / n <= y / n
  {
    MulStep(y / n, n);
    if x / n > y / n {
      MulMonotone(y / n + 1, x / n, n);
    }
  }

  /** Consecutive blocks meet, the first starts at 0 and the last ends at ncol. */
  lemma ColBlocksMeet(ncol: nat, nb: nat, b: nat)
    requires b < nb
    ensures ColLo(ncol, nb, b) <= ColLo(ncol, nb, b + 1)
    ensures ColLo(ncol, nb, 0) == 0 && ColLo(ncol, nb, nb) == ncol
  {
    assert ncol * (b + 1) == ncol * b + ncol;
    MulMonotone(0, ncol, b);
    DivMonotone(ncol * b, ncol * (b + 1), nb);
    assert ncol * 0 == 0;
    MulMonotone(0, ncol, nb);
    ExactDivision(ncol, nb);
  }

  lemma MulFar(n: int, d: int)
    requires n > 0
    ensures d >= 1 ==> n * d >= n
    ensures d <= -1 ==> n * d <= -n
  {
  }

  lemma ExactDivision(x: nat, n: nat)
    requires n > 0
    ensures x * n / n == x
  {
    var q, r := x * n / n, x * n % n;
    assert x * n == n * q + r;
    assert n * (x - q) == x * n - n * q;
    MulFar(n, x - q);
  }

  lemma {:induction false} ColLoMonotone(ncol: nat, nb: nat, a: nat, b: nat)
    requires a <= b <= nb && nb > 0
    ensures ColLo(ncol, nb, a) <= ColLo(ncol, nb, b)
    decreases b
  {
    if a < b {
      ColLoMonotone(ncol, nb, a, b - 1);
      ColBlocksMeet(ncol, nb, b - 1);
    }
  }

  ghost predicate InBlock(ncol: nat, nb: nat, b: nat, c: nat) {
    b < nb && ColLo(ncol, nb, b) <= c < ColLo(ncol, nb, b + 1)
  }

  lemma {:induction false} FindBlock(ncol: nat, nb: nat, c: nat, n: nat) returns (b: nat)
    requires 0 < n <= nb && c < ColLo(ncol, nb, n)
    ensures InBlock(ncol, nb, b, c)
    decreases n
  {
    if ColLo(ncol, nb, n - 1) <= c {
      b := n - 1;
    } else {
      ColBlocksMeet(ncol, nb, 0);
      b := FindBlock(ncol, nb, c, n - 1);
    }
  }

  lemma BlockUnique(ncol: nat, nb: nat, c: nat, b: nat, b': nat)
    requires InBlock(ncol, nb, b, c) && InBlock(ncol, nb, b', c)
    ensures b == b'
  {
    if b < b' {
      ColLoMonotone(ncol, nb, b + 1, b');
    } else if b' < b {
      ColLoMonotone(ncol, nb, b' + 1, b);
    }
  }

  /** For every number of blocks, each column lies in exactly one. */
  lemma ColBlocksTile(ncol: nat, nb: nat, c: nat)
    requires c < ncol && nb > 0
    ensures exists b: nat :: InBlock(ncol, nb, b, c)
    ensures forall b: nat, b': nat | InBlock(ncol, nb, b, c) && InBlock(ncol, nb, b', c) :: b == b'
  {
    ColBlocksMeet(ncol, nb, 0);
    var b := FindBlock(ncol, nb, c, nb);
    forall b: nat, b': nat | InBlock(ncol, nb, b, c) && InBlock(ncol, nb, b', c)
      ensures b == b'
    {
      BlockUnique(ncol, nb, c, b, b');
    }
  }

  /** The element the block loops read for sampled row `i`, column `col`: from the gathered block when every
      sampled row comes from a row-major matrix, else straight from the matrix. */
  function ReadCell(ms: seq<Matrix>, gathered: seq<Elem>, allRowMajor: bool, matOf: seq<nat>, rowOf: seq<nat>,
                    ncol: nat, i: nat, col: nat): Elem
    requires i < |matOf| == |rowOf| && matOf[i] < |ms|
  {
    var mat := if allRowMajor then gathered else ms[matOf[i]].data;
    var r := if allRowMajor then i else rowOf[i];
    if allRowMajor || ms[matOf[i]].rowMajor then Nth(mat, r * ncol + col) else Nth(mat, ms[matOf[i]].nrow * col + r)
  }

  /** The gathered path and the direct path both read the sampled row's element. */
  lemma ReadCellIs(ms: seq<Matrix>, gathered: seq<Elem>, allRowMajor: bool, matOf: seq<nat>, rowOf: seq<nat>,
                   ncol: nat, picked: Rows2D, i: nat, col: nat)
    requires i < |picked| && col < ncol && Uniform(picked, ncol)
    requires Located(ms, ncol, picked, |picked|, matOf, rowOf)
    requires allRowMajor ==> gathered == Flatten(picked)
    ensures ReadCell(ms, gathered, allRowMajor, matOf, rowOf, ncol, i, col) == CellAt(picked, i, col)
  {
    assert matOf[i] < |ms|;
    if allRowMajor {
      FlattenAt(picked, ncol, i, col);
    }
  }

  /** The sampled rows copied into one row-major block. */
  method Gather(ms: seq<Matrix>, ncol: nat, matOf: seq<nat>, rowOf: seq<nat>, ghost picked: Rows2D)
    returns (gathered: seq<Elem>)
    requires ValidMatrices(ms, ncol) && Located(ms, ncol, picked, |picked|, matOf, rowOf)
    requires forall i {:trigger matOf[i]} | 0 <= i < |matOf| :: matOf[i] < |ms| && ms[matOf[i]].rowMajor
    ensures gathered == Flatten(picked)
  {
    gathered := [];
    for i := 0 to |matOf|
      invariant gathered == Flatten(picked[..i])
    {
      var mat := ms[matOf[i]];
      RowSlice(mat, ncol, rowOf[i]);
      gathered := gathered + mat.data[rowOf[i] * ncol..rowOf[i] * ncol + ncol];
      assert picked[..i + 1][..i] == picked[..i];
    }
    assert picked[..|matOf|] == picked;
  }

  /** The counting pass of one block: what each column is about to append. */
  method CountBlock(ms: seq<Matrix>, gathered: seq<Elem>, allRowMajor: bool, matOf: seq<nat>, rowOf: seq<nat>,
                    ncol: nat, lo: nat, hi: nat, ghost picked: Rows2D)
    returns (counts: seq<nat>)
    requires lo <= hi <= ncol && Uniform(picked, ncol) && Located(ms, ncol, picked, |picked|, matOf, rowOf)
    requires allRowMajor ==> gathered == Flatten(picked)
    ensures |counts| == hi - lo
    ensures forall c {:trigger counts[c]} | 0 <= c < hi - lo :: counts[c] == |Values(picked, lo + c, |picked|)|
  {
    var count := new nat[hi - lo](_ => 0);
    for i := 0 to |matOf|
      invariant forall c {:trigger count[c]} | 0 <= c < hi - lo :: count[c] == |Values(picked, lo + c, i)|
    {
      for col := lo to hi
        invariant forall c {:trigger count[c]} | 0 <= c < hi - lo ::
          count[c] == |Values(picked, lo + c, if c < col - lo then i + 1 else i)|
      {
        assert matOf[i] < |ms|;
        ReadCellIs(ms, gathered, allRowMajor, matOf, rowOf, ncol, picked, i, col);
        if Kept(ReadCell(ms, gathered, allRowMajor, matOf, rowOf, ncol, i, col)) {
          count[col - lo] := count[col - lo] + 1;
        }
      }
    }
    counts := count[..];
  }

  /** The appending pass of one block, sampled row `i`. */
  method SampleBlockRow(ms: seq<Matrix>, gathered: seq<Elem>, allRowMajor: bool, matOf: seq<nat>, rowOf: seq<nat>,
                        ncol: nat, lo: nat, hi: nat, i: nat, ghost picked: Rows2D,
                        values: seq<seq<Double>>, idx: seq<seq<nat>>)
    returns (values': seq<seq<Double>>, idx': seq<seq<nat>>)
    requires lo <= hi <= ncol && i < |matOf| == |rowOf| && matOf[i] < |ms| && |values| == |idx| == ncol
    requires forall col: nat | col < ncol ::
               ReadCell(ms, gathered, allRowMajor, matOf, rowOf, ncol, i, col) == CellAt(picked, i, col)
    requires Done(picked, i, lo, hi, values, idx)
    ensures |values'| == |idx'| == ncol && Done(picked, i + 1, lo, hi, values', idx')
    ensures OnlyIn(lo, hi, values, values') && OnlyIn(lo, hi, idx, idx')
  {
    values', idx' := values, idx;
    for col := lo to hi
      invariant |values'| == |idx'| == ncol
      invariant Done(picked, i + 1, lo, col, values', idx') && Done(picked, i, col, hi, values', idx')
      invariant OnlyIn(lo, hi, values, values') && OnlyIn(lo, hi, idx, idx')
    {
      PushStep(picked, i, lo, col, hi, values', idx');
      var value := ReadCell(ms, gathered, allRowMajor, matOf, rowOf, ncol, i, col);
      values' := Push(values', col, Kept(value), Decode(value));
      idx' := Push(idx', col, Kept(value), i);
    }
  }

  /** The appending pass of one block of columns. */
  method SampleBlock(ms: seq<Matrix>, gathered: seq<Elem>, allRowMajor: bool, matOf: seq<nat>, rowOf: seq<nat>,
                     ncol: nat, lo: nat, hi: nat, ghost picked: Rows2D, values: seq<seq<Double>>, idx: seq<seq<nat>>)
    returns (values': seq<seq<Double>>, idx': seq<seq<nat>>)
    requires lo <= hi <= ncol && Uniform(picked, ncol) && Located(ms, ncol, picked, |picked|, matOf, rowOf)
    requires allRowMajor ==> gathered == Flatten(picked)
    requires |values| == |idx| == ncol && Done(picked, 0, lo, hi, values, idx)
    ensures |values'| == |idx'| == ncol && Done(picked, |picked|, lo, hi, values', idx')
    ensures OnlyIn(lo, hi, values, values') && OnlyIn(lo, hi, idx, idx')
  {
    values', idx' := values, idx;
    for i := 0 to |matOf|
      invariant |values'| == |idx'| == ncol && Done(picked, i, lo, hi, values', idx')
      invariant OnlyIn(lo, hi, values, values') && OnlyIn(lo, hi, idx, idx')
    {
      assert matOf[i] < |ms|;
      forall col: nat | col < ncol
        ensures ReadCell(ms, gathered, allRowMajor, matOf, rowOf, ncol, i, col) == CellAt(picked, i, col)
      {
        ReadCellIs(ms, gathered, allRowMajor, matOf, rowOf, ncol, picked, i, col);
      }
      ghost var before, beforeIdx := values', idx';
      values', idx' := SampleBlockRow(ms, gathered, allRowMajor, matOf, rowOf, ncol, lo, hi, i, picked, values', idx');
      OnlyInTwice(lo, hi, values, before, values');
      OnlyInTwice(lo, hi, idx, beforeIdx, idx');
    }
  }

  lemma OnlyInTwice<T>(lo: int, hi: int, a: seq<T>, b: seq<T>, c: seq<T>)
    requires OnlyIn(lo, hi, a, b) && OnlyIn(lo, hi, b, c)
    ensures OnlyIn(lo, hi, a, c)
  {
  }

  /** Block `b` is sampled, or still empty. */
  ghost predicate BlockState(picked: Rows2D, ncol: nat, nb: nat, b: nat, pending: set<int>,
                             values: seq<seq<Double>>, idx: seq<seq<nat>>)
    requires b < nb
  {
    Done(picked, if b in pending then 0 else |picked|, ColLo(ncol, nb, b), ColLo(ncol, nb, b + 1), values, idx)
  }

  ghost predicate AllBlocks(picked: Rows2D, ncol: nat, nb: nat, pending: set<int>,
                            values: seq<seq<Double>>, idx: seq<seq<nat>>)
  {
    forall b: nat | b < nb :: BlockState(picked, ncol, nb, b, pending, values, idx)
  }

  /** Sampling one block keeps every other block: their columns are disjoint. */
  lemma OtherBlocksKept(picked: Rows2D, ncol: nat, nb: nat, pending: set<int>, b: nat,
                        values: seq<seq<Double>>, idx: seq<seq<nat>>, values': seq<seq<Double>>, idx': seq<seq<nat>>)
    requires b < nb && AllBlocks(picked, ncol, nb, pending, values, idx)
    requires Done(picked, |picked|, ColLo(ncol, nb, b), ColLo(ncol, nb, b + 1), values', idx')
    requires OnlyIn(ColLo(ncol, nb, b), ColLo(ncol, nb, b + 1), values, values')
    requires OnlyIn(ColLo(ncol, nb, b), ColLo(ncol, nb, b + 1), idx, idx')
    ensures AllBlocks(picked, ncol, nb, pending - {b}, values', idx')
  {
    forall a: nat | a < nb
      ensures BlockState(picked, ncol, nb, a, pending - {b}, values', idx')
    {
      assert BlockState(picked, ncol, nb, a, pending, values, idx);
      if a < b {
        ColLoMonotone(ncol, nb, a + 1, b);
      } else if b < a {
        ColLoMonotone(ncol, nb, b + 1, a);
      }
    }
  }

  lemma AllBlocksStart(picked: Rows2D, ncol: nat, nb: nat, pending: set<int>)
    requires nb > 0 && forall b: nat | b < nb :: b in pending
    ensures AllBlocks(picked, ncol, nb, pending, Empties(ncol), Empties(ncol))
  {
    forall b: nat | b < nb
      ensures BlockState(picked, ncol, nb, b, pending, Empties(ncol), Empties(ncol))
    {
      ColBlocksMeet(ncol, nb, b);
      ColLoMonotone(ncol, nb, b + 1, nb);
    }
  }

  lemma ColumnEnd(picked: Rows2D, ncol: nat, nb: nat, values: seq<seq<Double>>, idx: seq<seq<nat>>, b: nat, c: nat)
    requires c < ncol == |values| == |idx| && InBlock(ncol, nb, b, c)
    requires BlockState(picked, ncol, nb, b, {}, values, idx)
    ensures values[c] == Values(picked, c, |picked|) && idx[c] == Indices(picked, c, |picked|)
  {
  }

  lemma AllBlocksEnd(picked: Rows2D, ncol: nat, nb: nat, values: seq<seq<Double>>, idx: seq<seq<nat>>)
    requires nb > 0 && |values| == |idx| == ncol && AllBlocks(picked, ncol, nb, {}, values, idx)
    ensures IsSample(picked, ncol, values, idx)
  {
    forall c {:trigger values[c]} {:trigger idx[c]} | 0 <= c < ncol
      ensures values[c] == Values(picked, c, |picked|) && idx[c] == Indices(picked, c, |picked|)
    {
      ColBlocksMeet(ncol, nb, 0);
      var b := FindBlock(ncol, nb, c, nb);
      assert BlockState(picked, ncol, nb, b, {}, values, idx);
      ColumnEnd(picked, ncol, nb, values, idx, b, c);
    }
  }

  method RowMajorOnly(ms: seq<Matrix>, matOf: seq<nat>) returns (allRowMajor: bool)
    requires forall i {:trigger matOf[i]} | 0 <= i < |matOf| :: matOf[i] < |ms|
    ensures allRowMajor <==> forall i {:trigger matOf[i]} | 0 <= i < |matOf| :: ms[matOf[i]].rowMajor
  {
    for i := 0 to |matOf|
      invariant forall k {:trigger matOf[k]} | 0 <= k < i :: ms[matOf[k]].rowMajor
    {
      if !ms[matOf[i]].rowMajor {
        return false;
      }
    }
    allRowMajor := true;
  }

  /** The column-block parallel sampler; the blocks run in any order. */
  method SampleDense(ms: seq<Matrix>, ncol: nat, sample: seq<int>, numThreads: nat)
    returns (values: seq<seq<Double>>, idx: seq<seq<nat>>)
    requires numThreads > 0 && ValidMatrices(ms, ncol)
    requires ValidIndices(sample, |Concat(ms, ncol)|)
    ensures IsSample(Picked(Concat(ms, ncol), sample), ncol, values, idx)
  {
    ghost var picked := Picked(Concat(ms, ncol), sample);
    ConcatUniform(ms, ncol);
    assert Uniform(picked, ncol);
    var matOf, rowOf := LocateRows(ms, ncol, sample);
    var allRowMajor := RowMajorOnly(ms, matOf);
    var gathered := [];
    if allRowMajor {
      gathered := Gather(ms, ncol, matOf, rowOf, picked);
    }
    values, idx := Empties(ncol), Empties(ncol);
    var pending := Below(numThreads);
    AllBlocksStart(picked, ncol, numThreads, pending);
    while pending != {}
      invariant pending <= Below(numThreads) && |values| == |idx| == ncol
      invariant AllBlocks(picked, ncol, numThreads, pending, values, idx)
      decreases |pending|
    {
      var block, rest := TakeAny(pending);
      values, idx := RunBlock(ms, gathered, allRowMajor, matOf, rowOf, ncol, numThreads, block, picked, pending, values,
                              idx);
      pending := rest;
    }
    AllBlocksEnd(picked, ncol, numThreads, values, idx);
  }

  /** One parallel iteration: count, reserve, append. */
  method RunBlock(ms: seq<Matrix>, gathered: seq<Elem>, allRowMajor: bool, matOf: seq<nat>, rowOf: seq<nat>,
                  ncol: nat, nb: nat, block: nat, ghost picked: Rows2D, ghost pending: set<int>,
                  values: seq<seq<Double>>, idx: seq<seq<nat>>)
    returns (values': seq<seq<Double>>, idx': seq<seq<nat>>)
    requires block < nb && block in pending && |values| == |idx| == ncol
    requires Uniform(picked, ncol) && Located(ms, ncol, picked, |picked|, matOf, rowOf)
    requires allRowMajor ==> gathered == Flatten(picked)
    requires AllBlocks(picked, ncol, nb, pending, values, idx)
    ensures |values'| == |idx'| == ncol && AllBlocks(picked, ncol, nb, pending - {block}, values', idx')
  {
    ColBlocksMeet(ncol, nb, block);
    ColLoMonotone(ncol, nb, block + 1, nb);
    var lo, hi := ColLo(ncol, nb, block), ColLo(ncol, nb, block + 1);
    assert BlockState(picked, ncol, nb, block, pending, values, idx);
    var counts := CountBlock(ms, gathered, allRowMajor, matOf, rowOf, ncol, lo, hi, picked);
    values', idx' := SampleBlock(ms, gathered, allRowMajor, matOf, rowOf, ncol, lo, hi, picked, values, idx);
    assert forall c {:trigger counts[c]} | 0 <= c < hi - lo :: counts[c] == |values'[lo + c]| == |idx'[lo + c]|;
    OtherBlocksKept(picked, ncol, nb, pending, block, values, idx, values', idx');
  }
}
