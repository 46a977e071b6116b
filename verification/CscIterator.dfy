/** CSC_RowIterator and its users: loading a column of a CSC matrix into bins, and predicting a CSC matrix row by row
    with one set of iterators per thread. */
module CscIterator {
  import opened BinColumn
  import opened BinMapper
  import opened Blocks
  import opened Doubles
  import opened Unordered

  /** One stored element of a column. */
  datatype CscEntry = CscEntry(row: int, value: Double)

  type CscColumn = seq<CscEntry>

  /** Row indices strictly ascending, non-negative and below the number of rows. */
  ghost predicate Canonical(col: CscColumn, nrow: nat) {
    && (forall i {:trigger col[i]} | 0 <= i < |col| :: 0 <= col[i].row < nrow)
    && (forall i, j {:trigger col[i], col[j]} | 0 <= i < j < |col| :: col[i].row < col[j].row)
  }

  ghost predicate HasRow(col: CscColumn, row: int) {
    exists i {:trigger col[i]} :: 0 <= i < |col| && col[i].row == row
  }

  /** The column's value at a row: random access, absent elements are zero. */
  function ValueAt(col: CscColumn, row: int): Double {
    if col == [] then ZERO_VALUE
    else if col[|col| - 1].row == row then col[|col| - 1].value
    else ValueAt(col[..|col| - 1], row)
  }

  lemma {:induction false} ValueAtEntry(col: CscColumn, nrow: nat, i: nat)
    requires Canonical(col, nrow) && i < |col|
    ensures ValueAt(col, col[i].row) == col[i].value
  {
    if i < |col| - 1 {
      ValueAtEntry(col[..|col| - 1], nrow, i);
    }
  }

  lemma {:induction false} ValueAtAbsent(col: CscColumn, row: int)
    requires !HasRow(col, row)
    ensures ValueAt(col, row) == Finite(0.0)
  {
    if col != [] {
      var init := col[..|col| - 1];
      assert col[|col| - 1].row != row;
      forall i {:trigger init[i]} | 0 <= i < |init|
        ensures init[i].row != row
      {
        assert init[i] == col[i];
      }
      ValueAtAbsent(init, row);
    }
  }

  // ---------------------------------------------------------------- the iterator

  class RowIterator {
    const col: CscColumn
    var nonzeroIdx: nat
    var curIdx: int
    var curVal: Double
    var isEnd: bool
    /** The last row asked for by Get. */
    ghost var asked: int

    /** The state Get keeps: the last element read, and every earlier one lies before the last query. */
    ghost predicate Valid(nrow: nat)
      reads this
    {
      && Canonical(col, nrow) && nonzeroIdx <= |col|
      && (if nonzeroIdx == 0 then curIdx == -1
          else curIdx == col[nonzeroIdx - 1].row && curVal == col[nonzeroIdx - 1].value)
      && (isEnd ==> nonzeroIdx == |col|)
      && (nonzeroIdx >= 2 ==> col[nonzeroIdx - 2].row < asked)
    }

    constructor (col: CscColumn, ghost nrow: nat)
      requires Canonical(col, nrow)
      ensures Valid(nrow) && this.col == col && nonzeroIdx == 0 && !isEnd && asked == 0
    {
      this.col := col;
      nonzeroIdx, curIdx, curVal, isEnd, asked := 0, -1, ZERO_VALUE, false, 0;
    }

    /** The stored element at an offset, or row -1 past the end. */
    function Read(offset: nat): CscEntry
    {
      if offset >= |col| then CscEntry(-1, ZERO_VALUE) else col[offset]
    }

    /** The value at row `idx`; queries must not go back. */
    method Get(idx: int, ghost nrow: nat) returns (v: Double)
      requires Valid(nrow) && 0 <= asked <= idx
      modifies this
      ensures Valid(nrow) && asked == idx && v == ValueAt(col, idx)
    {
      asked := idx;
      while idx > curIdx && !isEnd
        invariant Valid(nrow) && asked == idx
        decreases |col| - nonzeroIdx, !isEnd
      {
        var ret := Read(nonzeroIdx);
        if ret.row < 0 {
          isEnd := true;
          break;
        }
        curIdx, curVal := ret.row, ret.value;
        nonzeroIdx := nonzeroIdx + 1;
      }
      if idx == curIdx {
        ValueAtEntry(col, nrow, nonzeroIdx - 1);
        return curVal;
      }
      Passed(col, nrow, nonzeroIdx, idx);
      return ZERO_VALUE;
    }

    /** The next stored element, or row -1 once there is none. The position is a 32-bit counter that also counts the
        end, and it overflows behind 2^31 - 1 elements. */
    method NextNonZero(ghost nrow: nat) returns (ret: CscEntry, overflow: bool)
      requires Canonical(col, nrow) && (isEnd <==> nonzeroIdx > |col|)
      modifies this
      ensures overflow <==> !old(isEnd) && old(nonzeroIdx) >= INT32_MAX
      ensures !overflow ==> ret == Read(old(nonzeroIdx)) && (isEnd <==> nonzeroIdx > |col|)
      ensures !overflow ==> nonzeroIdx == (if old(isEnd) then old(nonzeroIdx) else old(nonzeroIdx) + 1)
    {
      overflow := false;
      if !isEnd {
        ret := Read(nonzeroIdx);
        if nonzeroIdx >= INT32_MAX {
          return ret, true;
        }
        nonzeroIdx := nonzeroIdx + 1;
        if ret.row < 0 {
          isEnd := true;
        }
      } else {
        ret := CscEntry(-1, ZERO_VALUE);
      }
    }
  }

  /** Between two stored rows, and after the last, the column is zero. */
  lemma Passed(col: CscColumn, nrow: nat, n: nat, idx: int)
    requires Canonical(col, nrow) && n <= |col| && (n > 0 ==> idx != col[n - 1].row)
    requires (n >= 2 ==> col[n - 2].row < idx) && (n == |col| || (n > 0 && idx < col[n - 1].row))
    ensures ValueAt(col, idx) == ZERO_VALUE
  {
    forall i {:trigger col[i]} | 0 <= i < |col|
      ensures col[i].row != idx
    {
      if i + 2 < n {
        assert col[i].row < col[n - 2].row;
      } else if i >= n > 0 {
        assert col[n - 1].row < col[i].row;
      }
    }
    ValueAtAbsent(col, idx);
  }

  // ---------------------------------------------------------------- loading a column

  /** The bins of a column, read back from storage. */
  ghost predicate Holds(column: seq<nat>, f: Feature, col: CscColumn)
    requires ValidFeature(f)
  {
    forall r {:trigger column[r]} | 0 <= r < |column| :: Decode(f, column[r]) == BinOf(f.mapper, ValueAt(col, r))
  }

  /** Every row by random access. */
  method LoadByRow(col: CscColumn, nrow: nat, f: Feature) returns (column: array<nat>)
    requires Canonical(col, nrow) && ValidFeature(f)
    ensures fresh(column) && column.Length == nrow && Holds(column[..], f, col)
  {
    column := new nat[nrow](_ => 0);
    var it := new RowIterator(col, nrow);
    for row := 0 to nrow
      invariant it.Valid(nrow) && it.col == col && 0 <= it.asked <= row && fresh(it)
      invariant forall r {:trigger column[r]} | row <= r < nrow :: column[r] == 0
      invariant forall r {:trigger column[r]} | 0 <= r < row :: Decode(f, column[r]) == BinOf(f.mapper, ValueAt(col, r))
    {
      var v := it.Get(row, nrow);
      PushData(column, f, row, v);
    }
  }

  /** What the stored elements alone leave behind: absent rows read as the most frequent bin. */
  ghost predicate HoldsStored(column: seq<nat>, f: Feature, col: CscColumn)
    requires ValidFeature(f)
  {
    forall r {:trigger column[r]} | 0 <= r < |column| ::
      Decode(f, column[r]) == if HasRow(col, r) then BinOf(f.mapper, ValueAt(col, r)) else f.mostFreq
  }

  /** Only the stored elements, in order. */
  method LoadStored(col: CscColumn, nrow: nat, f: Feature) returns (column: array<nat>, overflow: bool)
    requires Canonical(col, nrow) && ValidFeature(f)
    ensures fresh(column) && (overflow <==> |col| >= INT32_MAX)
    ensures !overflow ==> column.Length == nrow && HoldsStored(column[..], f, col)
  {
    overflow := false;
    column := new nat[nrow](_ => 0);
    var it := new RowIterator(col, nrow);
    var row := 0;
    ghost var n: nat := 0;
    while row < nrow
      invariant it.col == col && fresh(it) && it.nonzeroIdx == n <= |col| && !it.isEnd
      invariant n <= INT32_MAX && !overflow
      invariant row == if n == 0 then 0 else col[n - 1].row
      invariant forall r {:trigger column[r]} | 0 <= r < nrow ::
                  Decode(f, column[r]) == if HasRow(col[..n], r) then BinOf(f.mapper, ValueAt(col, r)) else f.mostFreq
      decreases |col| - n
    {
      var pair;
      pair, overflow := it.NextNonZero(nrow);
      if overflow {
        return;
      }
      row := pair.row;
      if row < 0 {
        assert n == |col|;
        break;
      }
      StoredStep(col, nrow, n);
      PushData(column, f, row, pair.value);
      n := n + 1;
    }
    assert n == |col|;
    assert col[..n] == col;
  }

  lemma StoredStep(col: CscColumn, nrow: nat, n: nat)
    requires Canonical(col, nrow) && n < |col|
    ensures forall r :: HasRow(col[..n + 1], r) <==> HasRow(col[..n], r) || r == col[n].row
    ensures !HasRow(col[..n], col[n].row) && ValueAt(col, col[n].row) == col[n].value
  {
    ValueAtEntry(col, nrow, n);
    forall r
      ensures HasRow(col[..n + 1], r) <==> HasRow(col[..n], r) || r == col[n].row
    {
      assert col[..n + 1] == col[..n] + [col[n]];
      assert (col[..n] + [col[n]])[n] == col[n];
    }
  }

  /** FLC_DatasetCreateFromCSC's column loop: the stored elements alone when absent rows are the most frequent bin
      anyway, every row otherwise. Both leave the same bins, unless the first overflows its counter. */
  method LoadColumn(col: CscColumn, nrow: nat, f: Feature) returns (column: array<nat>, overflow: bool)
    requires Canonical(col, nrow) && ValidFeature(f)
    ensures overflow <==> BinOf(f.mapper, ZERO_VALUE) == f.mostFreq && |col| >= INT32_MAX
    ensures !overflow ==> column.Length == nrow && Holds(column[..], f, col)
  {
    overflow := false;
    var defaultBin := ValueToBin(f.mapper, ZERO_VALUE);
    if defaultBin == f.mostFreq {
      column, overflow := LoadStored(col, nrow, f);
      if !overflow {
        StoredSufficeIff(column[..], f, col);
      }
    } else {
      column := LoadByRow(col, nrow, f);
    }
  }

  /** Loading the stored elements alone is right exactly when zero falls into the most frequent bin or no row is
      absent. */
  lemma StoredSufficeIff(column: seq<nat>, f: Feature, col: CscColumn)
    requires ValidFeature(f) && HoldsStored(column, f, col)
    ensures Holds(column, f, col) <==>
              BinOf(f.mapper, ZERO_VALUE) == f.mostFreq || forall r | 0 <= r < |column| :: HasRow(col, r)
  {
    forall r {:trigger column[r]} | 0 <= r < |column|
      ensures Decode(f, column[r]) == BinOf(f.mapper, ValueAt(col, r))
              <==> BinOf(f.mapper, ZERO_VALUE) == f.mostFreq || HasRow(col, r)
    {
      if !HasRow(col, r) {
        ValueAtAbsent(col, r);
      }
    }
    if Holds(column, f, col) && BinOf(f.mapper, ZERO_VALUE) != f.mostFreq {
      forall r | 0 <= r < |column|
        ensures HasRow(col, r)
      {
        assert Decode(f, column[r]) == BinOf(f.mapper, ValueAt(col, r));
      }
    }
  }

  // ---------------------------------------------------------------- prediction, one iterator set per thread

  /** The row handed to the predictor: the columns below `n` whose value passes the zero filter. */
  function SparseRow(cols: seq<CscColumn>, row: int, n: nat): seq<(nat, Double)>
    requires n <= |cols|
  {
    if n == 0 then []
    else
      var v := ValueAt(cols[n - 1], row);
      SparseRow(cols, row, n - 1) + if Passes(v) then [(n - 1, v)] else []
  }

  /** A pair (column, value) is in `r` exactly when the column is below `n`, has that value at the row, and the value
      passes the filter; the columns ascend. */
  ghost predicate Entries(cols: seq<CscColumn>, row: int, n: nat, r: seq<(nat, Double)>)
    requires n <= |cols|
  {
    && (forall k {:trigger r[k]} | 0 <= k < |r| ::
          r[k].0 < n && r[k].1 == ValueAt(cols[r[k].0], row) && Passes(r[k].1))
    && (forall k, l {:trigger r[k], r[l]} | 0 <= k < l < |r| :: r[k].0 < r[l].0)
    && (forall j: nat {:trigger cols[j]} | j < n && Passes(ValueAt(cols[j], row)) :: (j, ValueAt(cols[j], row)) in r)
  }

  lemma EntriesNext(cols: seq<CscColumn>, row: int, n: nat, r: seq<(nat, Double)>, more: seq<(nat, Double)>)
    requires n < |cols| && Entries(cols, row, n, r)
    requires var v := ValueAt(cols[n], row);
             more == r + if Passes(v) then [(n, v)] else []
    ensures Entries(cols, row, n + 1, more)
  {
    var v := ValueAt(cols[n], row);
    forall j: nat {:trigger cols[j]} | j < n + 1 && Passes(ValueAt(cols[j], row))
      ensures (j, ValueAt(cols[j], row)) in more
    {
      if j == n {
        assert more[|r|] == (n, v);
      }
    }
  }

  lemma {:induction false} SparseRowIs(cols: seq<CscColumn>, row: int, n: nat, r: seq<(nat, Double)>)
    requires n <= |cols| && r == SparseRow(cols, row, n)
    ensures Entries(cols, row, n, r)
  {
    if n > 0 {
      var init := SparseRow(cols, row, n - 1);
      SparseRowIs(cols, row, n - 1, init);
      EntriesNext(cols, row, n - 1, init, r);
    }
  }

  ghost predicate AllCanonical(cols: seq<CscColumn>, nrow: nat) {
    forall j {:trigger cols[j]} | 0 <= j < |cols| :: Canonical(cols[j], nrow)
  }

  /** One thread's iterators, none of them past row `upTo`. */
  ghost predicate Ready(iters: seq<RowIterator>, cols: seq<CscColumn>, nrow: nat, upTo: nat)
    reads iters
  {
    && |iters| == |cols|
    && (forall j, k {:trigger iters[j], iters[k]} | 0 <= j < k < |iters| :: iters[j] != iters[k])
    && forall j {:trigger iters[j]} | 0 <= j < |iters| ::
         iters[j].Valid(nrow) && iters[j].col == cols[j] && 0 <= iters[j].asked <= upTo
  }

  method NewIterators(cols: seq<CscColumn>, ghost nrow: nat) returns (iters: seq<RowIterator>)
    requires AllCanonical(cols, nrow)
    ensures Ready(iters, cols, nrow, 0) && forall j {:trigger iters[j]} | 0 <= j < |iters| :: fresh(iters[j])
  {
    iters := [];
    for j := 0 to |cols|
      invariant Ready(iters, cols[..j], nrow, 0) && forall j {:trigger iters[j]} | 0 <= j < |iters| :: fresh(iters[j])
    {
      var it := new RowIterator(cols[j], nrow);
      iters := iters + [it];
    }
    assert cols[..|cols|] == cols;
  }

  /** Column `j` at the row, through its iterator. */
  method GetColumn(iters: seq<RowIterator>, cols: seq<CscColumn>, j: nat, row: nat, ghost nrow: nat) returns (v: Double)
    requires Ready(iters, cols, nrow, row) && j < |cols|
    modifies iters
    ensures Ready(iters, cols, nrow, row) && v == ValueAt(cols[j], row)
  {
    v := iters[j].Get(row, nrow);
  }

  /** The row function of FLC_BoosterPredictForCSC on one thread's iterators. */
  method OneRow(iters: seq<RowIterator>, cols: seq<CscColumn>, row: nat, ghost nrow: nat)
    returns (r: seq<(nat, Double)>)
    requires Ready(iters, cols, nrow, row)
    modifies iters
    ensures Ready(iters, cols, nrow, row) && r == SparseRow(cols, row, |cols|)
  {
    r := [];
    for j := 0 to |cols|
      invariant Ready(iters, cols, nrow, row) && r == SparseRow(cols, row, j)
    {
      var v := GetColumn(iters, cols, j, row, nrow);
      if Passes(v) {
        r := r + [(j, v)];
      }
    }
  }

  /** The static schedule (section 2.7.1 of OpenMP 4.5): thread t gets the rows from cuts[t] up to cuts[t + 1]. */
  ghost predicate Schedule(cuts: seq<nat>, nrow: nat) {
    && |cuts| >= 2 && cuts[0] == 0 && cuts[|cuts| - 1] == nrow
    && forall s, t {:trigger cuts[s], cuts[t]} | 0 <= s < t < |cuts| :: cuts[s] <= cuts[t]
  }

  /** Rows lo .. hi-1 hold the predictor's input. */
  ghost predicate Filled(rows: seq<seq<(nat, Double)>>, cols: seq<CscColumn>, lo: nat, hi: nat) {
    hi <= |rows| && forall r {:trigger rows[r]} | lo <= r < hi :: rows[r] == SparseRow(cols, r, |cols|)
  }

  /** One thread: its rows in ascending order, through its own iterators. */
  method RunThread(cols: seq<CscColumn>, ghost nrow: nat, lo: nat, hi: nat, rows: array<seq<(nat, Double)>>)
    requires AllCanonical(cols, nrow) && lo <= hi <= rows.Length
    modifies rows
    ensures Filled(rows[..], cols, lo, hi)
    ensures forall r {:trigger rows[r]} | 0 <= r < rows.Length && !(lo <= r < hi) :: rows[r] == old(rows[r])
  {
    var iters := NewIterators(cols, nrow);
    for row := lo to hi
      invariant Ready(iters, cols, nrow, row) && forall j {:trigger iters[j]} | 0 <= j < |iters| :: fresh(iters[j])
      invariant Filled(rows[..], cols, lo, row)
      invariant forall r {:trigger rows[r]} | 0 <= r < rows.Length && !(lo <= r < row) :: rows[r] == old(rows[r])
    {
      var one := OneRow(iters, cols, row, nrow);
      rows[row] := one;
    }
  }

  /** The threads share neither iterators nor rows, so they are run one after the other, in any order. */
  method RunThreads(cols: seq<CscColumn>, ghost nrow: nat, count: nat, cuts: seq<nat>)
    returns (rows: array<seq<(nat, Double)>>)
    requires AllCanonical(cols, nrow) && Schedule(cuts, count)
    ensures rows.Length == count && Filled(rows[..], cols, 0, count)
  {
    rows := new seq<(nat, Double)>[count](_ => []);
    var pending := Below(|cuts| - 1);
    while pending != {}
      invariant pending <= Below(|cuts| - 1)
      invariant forall t {:trigger cuts[t]} | 0 <= t < |cuts| - 1 && t !in pending ::
                  Filled(rows[..], cols, cuts[t], cuts[t + 1])
      decreases |pending|
    {
      var t, rest := TakeAny(pending);
      CutsInside(cuts, count, t);
      ghost var before := rows[..];
      RunThread(cols, nrow, cuts[t], cuts[t + 1], rows);
      forall s {:trigger cuts[s]} | 0 <= s < |cuts| - 1 && s !in rest
        ensures Filled(rows[..], cols, cuts[s], cuts[s + 1])
      {
        if s != t {
          OtherRows(before, rows[..], cols, count, cuts, s, t);
        }
      }
      pending := rest;
    }
    AllFilled(rows[..], cols, cuts, |cuts| - 1);
  }

  /** A 64-bit count as a loop over `int` sees it: none when the low word is negative. */
  function IntCount(n: nat): nat {
    if ToInt32(n) < 0 then 0 else ToInt32(n)
  }

  /** Prediction input for the rows an `int` can count, whatever the number of threads. `ok == false`: the number of
      columns is negative as an `int`, and reserving room for a row throws. */
  method PredictRows(cols: seq<CscColumn>, numRow: nat, cuts: seq<nat>)
    returns (ok: bool, rows: array<seq<(nat, Double)>>)
    requires AllCanonical(cols, numRow) && Schedule(cuts, IntCount(numRow))
    ensures ok <==> ToInt32(|cols|) >= 0 || IntCount(numRow) == 0
    ensures ok ==> rows.Length == IntCount(numRow) && Filled(rows[..], cols[..IntCount(|cols|)], 0, rows.Length)
  {
    var ncol := ToInt32(|cols|);
    if ncol < 0 && IntCount(numRow) > 0 {
      return false, new seq<(nat, Double)>[0];
    }
    IntCountExactIff(|cols|);
    rows := RunThreads(cols[..IntCount(|cols|)], numRow, IntCount(numRow), cuts);
    ok := true;
  }

  lemma IntCountExactIff(n: nat)
    ensures IntCount(n) <= n && (IntCount(n) == n <==> n <= INT32_MAX)
  {
  }

  /** Every row of the matrix is reproduced exactly when there are at most 2^31 - 1 of them. */
  lemma AllRowsIff(rows: seq<seq<(nat, Double)>>, cols: seq<CscColumn>, numRow: nat)
    requires |cols| <= INT32_MAX && |rows| == IntCount(numRow)
    requires Filled(rows, cols[..IntCount(|cols|)], 0, |rows|)
    ensures Filled(rows, cols, 0, numRow) <==> numRow <= INT32_MAX
  {
    IntCountExactIff(|cols|);
    IntCountExactIff(numRow);
    assert cols[..|cols|] == cols;
  }

  /** A matrix of 2^31 rows predicts none of them, and the call succeeds. */
  method TooManyRows(cols: seq<CscColumn>, cuts: seq<nat>) returns (ok: bool, rows: array<seq<(nat, Double)>>)
    requires AllCanonical(cols, 0x8000_0000) && Schedule(cuts, 0)
    ensures ok && rows.Length == 0
  {
    ok, rows := PredictRows(cols, 0x8000_0000, cuts);
  }

  lemma CutsInside(cuts: seq<nat>, nrow: nat, t: nat)
    requires Schedule(cuts, nrow) && t < |cuts| - 1
    ensures cuts[t] <= cuts[t + 1] <= nrow
  {
  }

  /** Filling one thread's rows leaves another's alone. */
  lemma OtherRows(before: seq<seq<(nat, Double)>>, after: seq<seq<(nat, Double)>>, cols: seq<CscColumn>, nrow: nat,
                  cuts: seq<nat>, s: nat, t: nat)
    requires Schedule(cuts, nrow) && s < |cuts| - 1 && t < |cuts| - 1 && s != t
    requires |before| == |after| == nrow && Filled(before, cols, cuts[s], cuts[s + 1])
    requires forall r {:trigger after[r]} | 0 <= r < nrow && !(cuts[t] <= r < cuts[t + 1]) :: after[r] == before[r]
    ensures Filled(after, cols, cuts[s], cuts[s + 1])
  {
  }

  /** The threads' ranges together are all rows. */
  lemma {:induction false} AllFilled(rows: seq<seq<(nat, Double)>>, cols: seq<CscColumn>, cuts: seq<nat>, n: nat)
    requires n < |cuts| && cuts[0] == 0
    requires forall t {:trigger cuts[t]} | 0 <= t < n :: Filled(rows, cols, cuts[t], cuts[t + 1])
    ensures n > 0 ==> Filled(rows, cols, 0, cuts[n])
  {
    if n > 0 {
      AllFilled(rows, cols, cuts, n - 1);
      assert Filled(rows, cols, cuts[n - 1], cuts[n - 1 + 1]);
    }
  }
}
