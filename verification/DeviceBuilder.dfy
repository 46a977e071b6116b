/** DeviceDatasetBuilder: the protocol state machine of the chunked build. */
module DeviceBuilder {
  import opened Blocks
  import opened DatasetBuilder
  import opened DenseMatrix
  import opened DenseSampling
  import opened Doubles
  import opened MissingSentinel
  import opened Options
  import opened RowPush

  /** The checks of the constructor, in order. `declared` is what became of the declared missing sentinel. */
  function CreateCheck(totalNrow: int, ncol: int, elemSize: int, cuda: bool, declared: Result): (s: Status)
    ensures s == Done <==> cuda && declared.Ok? && elemSize != 0 && totalNrow > 0 && ncol > 0
    ensures s == NotCuda <==> !cuda
    ensures s == BadSentinel <==> cuda && declared.Fatal?
    ensures s == UnsupportedType <==> cuda && declared.Ok? && elemSize == 0
  {
    if !cuda then NotCuda
    else if declared.Fatal? then BadSentinel
    else if elemSize == 0 then UnsupportedType
    else if totalNrow <= 0 || ncol <= 0 then EmptyShape
    else Done
  }

  /** Every dataset row has received its row once through each channel in use, and nothing through the other. */
  ghost predicate RowsReceived(ds: Dataset, binner: Binner, rows: Rows2D, total: nat) {
    && OnceUpTo(ds.hostRows, if binner == Binner then [] else rows, total)
    && OnceUpTo(ds.binnerRows, if binner == NoBinner then [] else rows, total)
  }

  /** The push goes through the chunk loop of the device fallback, and its cursor leaves the 32-bit range. */
  ghost predicate PushOverflows(offered: Binner, ncol: nat, elemSize: nat, m: Matrix, isDevice: bool) {
    offered != Binner && isDevice && CursorPasses(m, ncol, elemSize)
  }

  class DeviceDatasetBuilder {
    const totalNrow: nat
    const ncol: nat
    const elemSize: nat
    const sentinel: Double
    const hasReference: bool
    const numThreads: nat
    const offered: Binner
    const sampleIndices: seq<int>
    var sampleBlock: array<Elem>
    var samplePos: nat
    var sampleCursor: nat
    var pushCursor: nat
    var dataset: Option<Dataset>
    /** The chunks accepted by each phase so far. */
    ghost var sampled: seq<Matrix>
    ghost var pushed: seq<Matrix>
    /** The sampled rows gathered into the block so far. */
    ghost var gathered: Rows2D
    /** The rows of the accepted chunks, stacked. */
    ghost var sampledRows: Rows2D
    ghost var pushedRows: Rows2D

    /** Everything but the contents of the block. */
    ghost predicate Consistent()
      reads this
    {
      && 0 < totalNrow <= INT32_MAX && 0 < ncol && 0 < numThreads
      && ValidIndices(sampleIndices, totalNrow)
      && sampledRows == Concat(sampled, ncol) && pushedRows == Concat(pushed, ncol)
      && sampleCursor == |sampledRows| <= totalNrow
      && pushCursor == |pushedRows| <= totalNrow
      && (dataset.None? ==> pushed == [])
      && (!hasReference && dataset.Some? ==>
            && sampleCursor == totalNrow
            && IsDatasetSample(sampledRows, ncol, sampleIndices, sentinel, dataset.value.values, dataset.value.idx))
      && (hasReference && dataset.Some? ==> dataset.value.values == [] && dataset.value.idx == [])
      && (dataset.Some? ==> RowsReceived(dataset.value, offered, pushedRows, totalNrow))
    }

    ghost predicate Valid()
      reads this, sampleBlock
    {
      && Consistent()
      && (!hasReference && dataset.None? ==>
            GatheredTo(sampledRows, ncol, sampleIndices, samplePos, gathered, sampleBlock[..]))
    }

    /** What a push answers, unless its cursor overflows. */
    ghost function PushStatus(m: Matrix): Status
      reads this
    {
      if m.nrow == 0 then EmptyChunk
      else if pushCursor + m.nrow > totalNrow then TooManyRows
      else if dataset.None? && !hasReference && sampleCursor != totalNrow then SamplingIncomplete
      else Done
    }

    constructor (totalNrow: nat, ncol: nat, elemSize: nat, hasReference: bool, sampleIndices: seq<int>,
                 declared: Result, numThreads: nat, offered: Binner)
      requires CreateCheck(totalNrow, ncol, elemSize, true, declared) == Done
      requires totalNrow <= INT32_MAX && numThreads > 0 && ValidIndices(sampleIndices, totalNrow)
      ensures Valid() && fresh(sampleBlock) && dataset == None && sampled == [] && pushed == []
      ensures this.totalNrow == totalNrow && this.ncol == ncol && this.elemSize == elemSize
      ensures this.hasReference == hasReference && this.sampleIndices == sampleIndices
      ensures this.sentinel == declared.sentinel && this.offered == offered
    {
      MulMonotone(0, |sampleIndices|, ncol);
      this.totalNrow, this.ncol, this.elemSize, this.hasReference := totalNrow, ncol, elemSize, hasReference;
      this.sampleIndices, this.sentinel, this.numThreads := sampleIndices, declared.sentinel, numThreads;
      this.offered := offered;
      sampleBlock := new Elem[if hasReference then 0 else |sampleIndices| * ncol](_ => ZERO);
      samplePos, sampleCursor, pushCursor, dataset := 0, 0, 0, None;
      sampled, pushed, gathered := [], [], [];
      sampledRows, pushedRows := [], [];
    }

    /** Feeds one chunk to the sampling phase. A rejected call changes nothing. */
    method SampleChunk(m: Matrix) returns (s: Status)
      requires Valid() && ValidMatrix(m, ncol)
      modifies this, sampleBlock
      ensures Valid() && sampleBlock == old(sampleBlock)
      ensures s == if hasReference then SamplingWithReference
                   else if old(dataset).Some? then SamplingAfterPush
                   else if m.nrow == 0 then EmptyChunk
                   else if old(sampleCursor) + m.nrow > totalNrow then TooManyRows
                   else Done
      ensures s == Done ==> sampled == old(sampled) + [m]
      ensures s != Done ==> sampled == old(sampled) && samplePos == old(samplePos) && sampleCursor == old(sampleCursor)
                            && sampleBlock[..] == old(sampleBlock[..])
      ensures pushed == old(pushed) && pushCursor == old(pushCursor) && dataset == old(dataset)
    {
      if hasReference {
        return SamplingWithReference;
      }
      if dataset.Some? {
        return SamplingAfterPush;
      }
      if m.nrow == 0 {
        return EmptyChunk;
      }
      if sampleCursor + m.nrow > totalNrow {
        return TooManyRows;
      }
      AcceptSample(m);
      s := Done;
    }

    /** The sampling step proper, for a chunk that passed the protocol checks. */
    method AcceptSample(m: Matrix)
      requires Valid() && ValidMatrix(m, ncol) && !hasReference && dataset.None?
      requires sampleCursor + m.nrow <= totalNrow
      modifies this`samplePos, this`sampleCursor, this`sampled, this`sampledRows, this`gathered, sampleBlock
      ensures Valid() && sampled == old(sampled) + [m]
    {
      ghost var all := Concat(sampled + [m], ncol);
      ConcatAppend(sampled, m, ncol);
      var pos, more := SampleRows(m, all);
      TakeSample(m, pos, more, all);
    }

    /** The chunk is accounted for. */
    method TakeSample(m: Matrix, pos: nat, ghost more: Rows2D, ghost all: Rows2D)
      requires Consistent() && !hasReference && dataset.None? && all == Concat(sampled + [m], ncol)
      requires |all| == sampleCursor + m.nrow <= totalNrow
      requires GatheredTo(all, ncol, sampleIndices, pos, more, sampleBlock[..])
      modifies this`samplePos, this`sampleCursor, this`sampled, this`sampledRows, this`gathered
      ensures Valid() && sampled == old(sampled) + [m]
    {
      samplePos := pos;
      sampleCursor := sampleCursor + m.nrow;
      sampled, sampledRows, gathered := sampled + [m], all, more;
    }

    /** Extends the gathered prefix of the block by the sampled rows of the chunk. */
    method SampleRows(m: Matrix, ghost all: Rows2D) returns (pos: nat, ghost more: Rows2D)
      requires Valid() && ValidMatrix(m, ncol) && !hasReference && dataset.None?
      requires all == sampledRows + Rows(m, ncol)
      modifies sampleBlock
      ensures GatheredTo(all, ncol, sampleIndices, pos, more, sampleBlock[..])
    {
      ghost var rows, local, extra := Rows(m, ncol), [], [];
      pos, local, extra := CopySampled(m, rows);
      more := gathered + extra;
      LocalStep(sampledRows, rows, ncol, sampleIndices, gathered, local, extra, sampleBlock[..]);
    }

    /** Copies the rows of the chunk that are in the sample behind those already gathered. */
    method CopySampled(m: Matrix, ghost rows: Rows2D) returns (pos: nat, ghost local: seq<nat>, ghost extra: Rows2D)
      requires Valid() && ValidMatrix(m, ncol) && !hasReference && dataset.None? && rows == Rows(m, ncol)
      modifies sampleBlock
      ensures pos == samplePos + |local| && LocalOf(sampleIndices, samplePos, sampleCursor, m.nrow, local)
      ensures pos < |sampleIndices| ==> sampleCursor + m.nrow <= sampleIndices[pos]
      ensures RowsAt(rows, local, extra) && Uniform(extra, ncol)
      ensures Flatten(gathered) + Flatten(extra) <= sampleBlock[..]
    {
      var localRows;
      pos, localRows := LocalSample(sampleIndices, samplePos, sampleCursor, m.nrow, totalNrow);
      local, extra := localRows, LocalRows(rows, localRows, |localRows|);
      WriteLocal(m, localRows, extra);
    }

    /** Writes the chunk's rows `localRows` behind those already gathered. */
    method WriteLocal(m: Matrix, localRows: seq<nat>, ghost extra: Rows2D)
      requires ValidMatrix(m, ncol) && samplePos == |gathered| && |extra| == |localRows|
      requires Uniform(gathered, ncol) && |gathered| + |localRows| <= |sampleIndices|
      requires Flatten(gathered) <= sampleBlock[..] && sampleBlock.Length == |sampleIndices| * ncol
      requires forall i {:trigger localRows[i]} | 0 <= i < |localRows| ::
                 localRows[i] < m.nrow && extra[i] == RowOf(m, ncol, localRows[i])
      modifies sampleBlock
      ensures Flatten(gathered) + Flatten(extra) <= sampleBlock[..]
    {
      BlockRoom(ncol, sampleIndices, gathered, sampleBlock[..], |localRows|);
      var blockPos := samplePos * ncol;
      if |localRows| > 0 {
        GatherHostRows(m, ncol, localRows, extra, sampleBlock, blockPos);
      }
    }

    /** Bins one chunk, building the dataset from the complete sample first. A rejected call changes nothing. After an
        overflow of the fallback's cursor the behaviour is undefined: nothing is promised, not even validity. */
    method PushChunk(m: Matrix, isDevice: bool) returns (s: Status, overflow: bool)
      requires Valid() && ValidMatrix(m, ncol)
      modifies this`dataset, this`pushCursor, this`pushed, this`pushedRows
      ensures overflow <==> old(PushStatus(m)) == Done && PushOverflows(offered, ncol, elemSize, m, isDevice)
      ensures !overflow ==> Valid() && s == old(PushStatus(m))
      ensures !overflow && s == Done ==> pushed == old(pushed) + [m] && dataset.Some?
      ensures !overflow && s != Done ==>
                pushed == old(pushed) && pushCursor == old(pushCursor) && dataset == old(dataset)
      ensures sampled == old(sampled) && sampleCursor == old(sampleCursor) && samplePos == old(samplePos)
    {
      overflow := false;
      if m.nrow == 0 {
        return EmptyChunk, false;
      }
      if pushCursor + m.nrow > totalNrow {
        return TooManyRows, false;
      }
      if dataset.None? {
        s := InitDataset();
        if s != Done {
          return;
        }
      }
      overflow := AcceptPush(m, isDevice);
      s := Done;
    }

    /** The push step proper. After an overflow nothing more is modelled. */
    method AcceptPush(m: Matrix, isDevice: bool) returns (overflow: bool)
      requires Valid() && ValidMatrix(m, ncol) && dataset.Some? && pushCursor + m.nrow <= totalNrow
      modifies this`dataset, this`pushCursor, this`pushed, this`pushedRows
      ensures overflow <==> PushOverflows(offered, ncol, elemSize, m, isDevice)
      ensures !overflow ==> Valid() && pushed == old(pushed) + [m] && dataset.Some?
    {
      ghost var all := Concat(pushed + [m], ncol);
      ConcatAppend(pushed, m, ncol);
      var ds;
      ds, overflow := PushBoth(dataset.value, m, isDevice, pushedRows, all);
      if !overflow {
        TakePush(ds, m, all);
      }
    }

    /** Through the binner, through the host loops, or through both when verifying. */
    method PushBoth(ds: Dataset, m: Matrix, isDevice: bool, ghost rows: Rows2D, ghost all: Rows2D)
      returns (ds': Dataset, overflow: bool)
      requires ValidMatrix(m, ncol) && pushCursor == |rows| && pushCursor + m.nrow <= totalNrow <= INT32_MAX
      requires RowsReceived(ds, offered, rows, totalNrow) && all == rows + Rows(m, ncol)
      ensures overflow <==> PushOverflows(offered, ncol, elemSize, m, isDevice)
      ensures ds'.values == ds.values && ds'.idx == ds.idx
      ensures !overflow ==> RowsReceived(ds', offered, all, totalNrow)
    {
      overflow := false;
      var hostRows, binnerRows := ds.hostRows, ds.binnerRows;
      if offered != NoBinner {
        binnerRows := PushAt(binnerRows, m, ncol, pushCursor, rows, totalNrow);
      }
      if offered == NoBinner || offered == VerifyingBinner {
        hostRows, overflow := HostPush(hostRows, m, isDevice, rows);
      }
      ds' := ds.(hostRows := hostRows, binnerRows := binnerRows);
    }

    /** The chunk is accounted for. */
    method TakePush(ds: Dataset, m: Matrix, ghost all: Rows2D)
      requires Consistent() && dataset.Some? && all == Concat(pushed + [m], ncol)
      requires |all| == pushCursor + m.nrow <= totalNrow
      requires ds.values == dataset.value.values && ds.idx == dataset.value.idx
      requires RowsReceived(ds, offered, all, totalNrow)
      modifies this`dataset, this`pushCursor, this`pushed, this`pushedRows
      ensures Valid() && pushed == old(pushed) + [m] && dataset.Some?
    {
      dataset := Some(ds);
      pushCursor := pushCursor + m.nrow;
      pushed, pushedRows := pushed + [m], all;
    }

    /** The host push loops, with the device fallback in front of them. */
    method HostPush(log: Log, m: Matrix, isDevice: bool, ghost rows: Rows2D) returns (log': Log, overflow: bool)
      requires ValidMatrix(m, ncol) && pushCursor == |rows| && pushCursor + m.nrow <= totalNrow <= INT32_MAX
      requires OnceUpTo(log, rows, totalNrow)
      ensures overflow <==> isDevice && CursorPasses(m, ncol, elemSize)
      ensures !overflow ==> OnceUpTo(log', rows + Rows(m, ncol), totalNrow)
    {
      if isDevice {
        ghost var reached;
        log', overflow, reached := PushDeviceMatrixViaHost(log, m, ncol, elemSize, pushCursor);
        OnceStep(log, rows, totalNrow, Rows(m, ncol), reached);
      } else {
        log' := PushAt(log, m, ncol, pushCursor, rows, totalNrow);
        overflow := false;
      }
    }

    /** Builds the empty dataset: from the sample of the gathered block with identity indices, or from the reference. */
    method InitDataset() returns (s: Status)
      requires Valid() && dataset.None?
      modifies this`dataset
      ensures Valid()
      ensures s == if !hasReference && sampleCursor != totalNrow then SamplingIncomplete else Done
      ensures dataset.Some? <==> s == Done
    {
      var values, idx := [], [];
      if !hasReference {
        if sampleCursor != totalNrow {
          return SamplingIncomplete;
        }
        values, idx := SampleGathered();
      }
      dataset := Some(Dataset(values, idx, EmptyLog(totalNrow), EmptyLog(totalNrow)));
      s := Done;
    }

    /** Runs the samplers over the gathered block: the sample of the rows the indices name in the whole input. */
    method SampleGathered() returns (values: seq<seq<Double>>, idx: seq<seq<nat>>)
      requires Valid() && dataset.None? && !hasReference && sampleCursor == totalNrow
      ensures IsDatasetSample(Concat(sampled, ncol), ncol, sampleIndices, sentinel, values, idx)
    {
      ghost var rows := sampledRows;
      ghost var picked := Picked(rows, sampleIndices);
      AllGathered(rows, ncol, sampleIndices, samplePos, totalNrow, gathered, sampleBlock[..]);
      var n := |sampleIndices|;
      var block := Matrix(sampleBlock[..], n, true);
      BlockRows(picked, ncol);
      IdentityPicks(picked);
      values, idx := SampleAndRewrite([block], ncol, Identity(n), sentinel, numThreads);
    }

    /** Hands out the finished dataset. A rejected call changes nothing. */
    method Finish() returns (s: Status, ds: Option<Dataset>)
      requires Valid()
      ensures s == if pushCursor != totalNrow then PushIncomplete else Done
      ensures s == Done ==> ds.Some? && RowsReceived(ds.value, offered, Concat(pushed, ncol), totalNrow)
      ensures s == Done ==> |Concat(pushed, ncol)| == totalNrow
      ensures s == Done && !hasReference ==>
                && |Concat(sampled, ncol)| == totalNrow
                && IsDatasetSample(Concat(sampled, ncol), ncol, sampleIndices, sentinel, ds.value.values, ds.value.idx)
      ensures s == Done && hasReference ==> ds.value.values == [] && ds.value.idx == []
      ensures s != Done ==> ds == None
    {
      if pushCursor != totalNrow {
        return PushIncomplete, None;
      }
      assert pushed != [];
      return Done, dataset;
    }
  }

  function Identity(n: nat): (s: seq<int>)
    ensures |s| == n && forall i {:trigger s[i]} | 0 <= i < n :: s[i] == i
  {
    if n == 0 then [] else Identity(n - 1) + [n - 1]
  }

  lemma {:induction false} IdentityIncreasing(n: nat)
    ensures Increasing(Identity(n))
  {
    if n > 0 {
      IdentityIncreasing(n - 1);
      IncreasingAppend(Identity(n - 1), n - 1);
    }
  }

  lemma IdentityPicks(rows: Rows2D)
    ensures ValidIndices(Identity(|rows|), |rows|) && Picked(rows, Identity(|rows|)) == rows
  {
    IdentityIncreasing(|rows|);
  }

  lemma {:induction false} FlattenJoin(a: seq<seq<Elem>>, b: seq<seq<Elem>>)
    ensures Flatten(a + b) == Flatten(a) + Flatten(b)
  {
    if b == [] {
      assert a + b == a;
    } else {
      FlattenJoin(a, b[..|b| - 1]);
      assert (a + b)[..|a + b| - 1] == a + b[..|b| - 1];
    }
  }

  /** The block starts with the rows named by the sample indices below the cursor; the next index is beyond it. */
  ghost predicate GatheredTo(rows: Rows2D, ncol: nat, sample: seq<int>, pos: nat, gathered: Rows2D, block: seq<Elem>) {
    && pos == |gathered| && Uniform(gathered, ncol)
    && PicksOf(rows, sample, gathered)
    && (pos < |sample| ==> |rows| <= sample[pos])
    && Flatten(gathered) <= block && |block| == |sample| * ncol
  }

  lemma RoomBehind(pos: nat, n: nat, total: nat, ncol: nat)
    requires pos + n <= total
    ensures 0 <= pos * ncol && pos * ncol + n * ncol <= total * ncol
  {
  }

  /** The gathered prefix ends at pos * ncol, and `n` more rows fit behind it. */
  lemma BlockRoom(ncol: nat, sample: seq<int>, gathered: Rows2D, block: seq<Elem>, n: nat)
    requires Uniform(gathered, ncol) && |gathered| + n <= |sample|
    requires Flatten(gathered) <= block && |block| == |sample| * ncol
    ensures 0 <= |gathered| * ncol && |gathered| * ncol + n * ncol <= |block|
    ensures block[..|gathered| * ncol] == Flatten(gathered)
  {
    RoomBehind(|gathered|, n, |sample|, ncol);
    FlattenLength(gathered, ncol);
  }

  /** Gathering a chunk's sampled rows behind the earlier ones extends the gathered prefix. */
  lemma SampleStep(rows: Rows2D, more: Rows2D, ncol: nat, sample: seq<int>, gathered: Rows2D, extra: Rows2D,
                   block: seq<Elem>)
    requires Uniform(gathered, ncol) && Uniform(extra, ncol) && |block| == |sample| * ncol
    requires PicksOf(rows, sample, gathered) && NextPicks(|rows|, more, sample, |gathered|, extra)
    requires |gathered| + |extra| < |sample| ==> |rows| + |more| <= sample[|gathered| + |extra|]
    requires Flatten(gathered) + Flatten(extra) <= block
    ensures GatheredTo(rows + more, ncol, sample, |gathered| + |extra|, gathered + extra, block)
  {
    PicksExtend(rows, more, sample, gathered, extra);
    FlattenJoin(gathered, extra);
  }

  lemma LocalStep(rows: Rows2D, more: Rows2D, ncol: nat, sample: seq<int>, gathered: Rows2D, local: seq<nat>,
                  extra: Rows2D, block: seq<Elem>)
    requires Uniform(gathered, ncol) && Uniform(extra, ncol) && |block| == |sample| * ncol
    requires PicksOf(rows, sample, gathered)
    requires LocalOf(sample, |gathered|, |rows|, |more|, local) && RowsAt(more, local, extra)
    requires |gathered| + |local| < |sample| ==> |rows| + |more| <= sample[|gathered| + |local|]
    requires Flatten(gathered) + Flatten(extra) <= block
    ensures GatheredTo(rows + more, ncol, sample, |gathered| + |local|, gathered + extra, block)
  {
    LocalPicks(|rows|, more, sample, |gathered|, local, extra);
    SampleStep(rows, more, ncol, sample, gathered, extra, block);
  }

  /** Once every row has been seen, the gathered block is exactly the sampled rows. */
  lemma AllGathered(rows: Rows2D, ncol: nat, sample: seq<int>, pos: nat, total: nat, gathered: Rows2D, block: seq<Elem>)
    requires ValidIndices(sample, total) && GatheredTo(rows, ncol, sample, pos, gathered, block) && |rows| == total
    ensures pos == |sample| && gathered == Picked(rows, sample)
    ensures block == Flatten(gathered) && Uniform(gathered, ncol)
  {
    FlattenLength(gathered, ncol);
    assert gathered == Picked(rows, sample);
  }

  /** The chunked build and the one-shot build agree: any cut of the same input into chunks, in any layouts, gives
      the same sample, and the same rows where host loops fill the dataset. */
  lemma BuildersAgree(whole: seq<Matrix>, chunks: seq<Matrix>, ncol: nat, sample: seq<int>, sentinel: Double,
                      one: Dataset, built: Dataset, total: nat)
    requires Concat(whole, ncol) == Concat(chunks, ncol) && total == |Concat(whole, ncol)|
    requires ValidIndices(sample, total)
    requires IsDatasetSample(Concat(whole, ncol), ncol, sample, sentinel, one.values, one.idx)
    requires OnceUpTo(one.hostRows, Concat(whole, ncol), total)
    requires IsDatasetSample(Concat(chunks, ncol), ncol, sample, sentinel, built.values, built.idx)
    requires RowsReceived(built, NoBinner, Concat(chunks, ncol), total)
    ensures built.values == one.values && built.idx == one.idx && built.hostRows == one.hostRows
  {
    DatasetSampleUnique(Concat(whole, ncol), ncol, sample, sentinel, one.values, one.idx, built.values, built.idx);
  }
}
