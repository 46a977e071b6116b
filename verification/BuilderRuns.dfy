/** Complete builds through the chunk protocol, against the one-shot build of the same rows. */
module BuilderRuns {
  import opened Blocks
  import opened DatasetBuilder
  import opened DenseMatrix
  import opened DenseSampling
  import opened DeviceBuilder
  import opened MissingSentinel
  import opened Options

  /** A way of cutting `total` rows into non-empty chunks, each in either layout. */
  ghost predicate Cut(chunks: seq<Matrix>, ncol: nat, total: nat) {
    && ValidMatrices(chunks, ncol) && |Concat(chunks, ncol)| == total
    && forall j {:trigger chunks[j]} | 0 <= j < |chunks| :: chunks[j].nrow > 0
  }

  ghost predicate HasEmpty(ms: seq<Matrix>) {
    exists j {:trigger ms[j]} :: 0 <= j < |ms| && ms[j].nrow == 0
  }

  /** Pushing the matrices in turn reaches one whose push overflows its cursor, before one without rows. */
  ghost predicate RunOverflows(offered: Binner, ncol: nat, elemSize: nat, ms: seq<Matrix>, onDevice: seq<bool>)
    requires |ms| <= |onDevice|
  {
    exists j {:trigger ms[j]} | 0 <= j < |ms| ::
      !HasEmpty(ms[..j + 1]) && PushOverflows(offered, ncol, elemSize, ms[j], onDevice[j])
  }

  /** One more matrix with rows that does not overflow. */
  lemma RunContinues(offered: Binner, ncol: nat, elemSize: nat, ms: seq<Matrix>, onDevice: seq<bool>, j: nat)
    requires j < |ms| <= |onDevice| && !HasEmpty(ms[..j]) && !RunOverflows(offered, ncol, elemSize, ms[..j], onDevice)
    requires ms[j].nrow > 0 && !PushOverflows(offered, ncol, elemSize, ms[j], onDevice[j])
    ensures !HasEmpty(ms[..j + 1]) && !RunOverflows(offered, ncol, elemSize, ms[..j + 1], onDevice)
  {
  }

  lemma OverflowEnds(offered: Binner, ncol: nat, elemSize: nat, ms: seq<Matrix>, onDevice: seq<bool>, j: nat)
    requires j < |ms| <= |onDevice| && !HasEmpty(ms[..j]) && ms[j].nrow > 0
    requires PushOverflows(offered, ncol, elemSize, ms[j], onDevice[j])
    ensures RunOverflows(offered, ncol, elemSize, ms, onDevice)
  {
  }

  /** A matrix without rows is reached only if nothing before it overflows. */
  lemma EmptyEnds(offered: Binner, ncol: nat, elemSize: nat, ms: seq<Matrix>, onDevice: seq<bool>, j: nat)
    requires j < |ms| <= |onDevice| && ms[j].nrow == 0 && !RunOverflows(offered, ncol, elemSize, ms[..j], onDevice)
    ensures HasEmpty(ms) && !RunOverflows(offered, ncol, elemSize, ms, onDevice)
  {
    forall k {:trigger ms[k]} | 0 <= k < |ms| && PushOverflows(offered, ncol, elemSize, ms[k], onDevice[k])
      ensures HasEmpty(ms[..k + 1])
    {
      if k < j {
        assert ms[..j][k] == ms[k] && ms[..j][..k + 1] == ms[..k + 1];
      } else {
        assert ms[..k + 1][j].nrow == 0;
      }
    }
  }

  // ---------------------------------------------------------------- the calls of both phases

  /** The sampling call for the next matrix. */
  method SampleNext(b: DeviceDatasetBuilder, ms: seq<Matrix>, j: nat) returns (s: Status)
    requires b.Valid() && !b.hasReference && b.dataset == None && b.pushed == []
    requires j < |ms| && b.sampled == ms[..j] && ValidMatrices(ms, b.ncol) && |Concat(ms, b.ncol)| == b.totalNrow
    modifies b, b.sampleBlock
    ensures b.Valid() && b.dataset == None && b.pushed == [] && b.sampleBlock == old(b.sampleBlock)
    ensures s == if ms[j].nrow == 0 then EmptyChunk else Done
    ensures s == Done ==> b.sampled == ms[..j + 1]
  {
    PrefixGrows(ms, b.ncol, j);
    assert ms[..j + 1] == ms[..j] + [ms[j]];
    s := b.SampleChunk(ms[j]);
  }

  /** The sampling calls, one per matrix, up to the first refusal. */
  method TrySampling(b: DeviceDatasetBuilder, ms: seq<Matrix>) returns (s: Status)
    requires b.Valid() && !b.hasReference && b.dataset == None && b.sampled == [] && b.pushed == []
    requires ValidMatrices(ms, b.ncol) && |Concat(ms, b.ncol)| == b.totalNrow
    modifies b, b.sampleBlock
    ensures s == if HasEmpty(ms) then EmptyChunk else Done
    ensures s == Done ==> b.Valid() && b.sampled == ms && b.pushed == [] && b.dataset == None
  {
    for j := 0 to |ms|
      invariant b.Valid() && b.sampled == ms[..j] && b.pushed == [] && b.dataset == None
      invariant b.sampleBlock == old(b.sampleBlock) && !HasEmpty(ms[..j])
    {
      s := SampleNext(b, ms, j);
      if s != Done {
        return;
      }
    }
    assert ms[..|ms|] == ms;
    s := Done;
  }

  /** The push call for the next matrix. */
  method PushNext(b: DeviceDatasetBuilder, ms: seq<Matrix>, j: nat, onDevice: seq<bool>)
    returns (s: Status, overflow: bool)
    requires b.Valid() && j < |ms| <= |onDevice| && b.pushed == ms[..j]
    requires ValidMatrices(ms, b.ncol) && |Concat(ms, b.ncol)| == b.totalNrow
    requires b.hasReference || |Concat(b.sampled, b.ncol)| == b.totalNrow
    modifies b
    ensures overflow <==> ms[j].nrow > 0 && PushOverflows(b.offered, b.ncol, b.elemSize, ms[j], onDevice[j])
    ensures !overflow ==> b.Valid() && s == if ms[j].nrow == 0 then EmptyChunk else Done
    ensures !overflow && s == Done ==> b.pushed == ms[..j + 1] && b.sampled == old(b.sampled)
  {
    PrefixGrows(ms, b.ncol, j);
    assert ms[..j + 1] == ms[..j] + [ms[j]];
    s, overflow := b.PushChunk(ms[j], onDevice[j]);
  }

  /** The push calls, one per matrix, up to the first refusal or overflow. */
  method TryPushing(b: DeviceDatasetBuilder, ms: seq<Matrix>, onDevice: seq<bool>) returns (s: Status, overflow: bool)
    requires b.Valid() && b.pushed == [] && ValidMatrices(ms, b.ncol) && |Concat(ms, b.ncol)| == b.totalNrow
    requires |ms| <= |onDevice|
    requires b.hasReference || (b.dataset == None && |Concat(b.sampled, b.ncol)| == b.totalNrow)
    modifies b
    ensures overflow <==> RunOverflows(b.offered, b.ncol, b.elemSize, ms, onDevice)
    ensures !overflow ==> s == if HasEmpty(ms) then EmptyChunk else Done
    ensures !overflow && s == Done ==> b.Valid() && b.pushed == ms && b.sampled == old(b.sampled)
  {
    overflow := false;
    for j := 0 to |ms|
      invariant b.Valid() && b.pushed == ms[..j] && b.sampled == old(b.sampled) && !HasEmpty(ms[..j])
      invariant b.hasReference || |Concat(b.sampled, b.ncol)| == b.totalNrow
      invariant !RunOverflows(b.offered, b.ncol, b.elemSize, ms[..j], onDevice)
    {
      s, overflow := PushNext(b, ms, j, onDevice);
      if overflow {
        OverflowEnds(b.offered, b.ncol, b.elemSize, ms, onDevice, j);
        return;
      }
      if s != Done {
        EmptyEnds(b.offered, b.ncol, b.elemSize, ms, onDevice, j);
        return;
      }
      RunContinues(b.offered, b.ncol, b.elemSize, ms, onDevice, j);
    }
    assert ms[..|ms|] == ms;
    s := Done;
  }

  // ---------------------------------------------------------------- complete builds

  /** Some device chunk goes through the fallback and overflows its cursor. */
  ghost predicate AnyOverflows(offered: Binner, ncol: nat, elemSize: nat, ms: seq<Matrix>, onDevice: seq<bool>)
    requires |ms| <= |onDevice|
  {
    exists j {:trigger ms[j]} | 0 <= j < |ms| :: PushOverflows(offered, ncol, elemSize, ms[j], onDevice[j])
  }

  lemma CutOverflows(offered: Binner, ncol: nat, elemSize: nat, chunks: seq<Matrix>, onDevice: seq<bool>, total: nat)
    requires Cut(chunks, ncol, total) && |chunks| <= |onDevice|
    ensures !HasEmpty(chunks)
    ensures RunOverflows(offered, ncol, elemSize, chunks, onDevice)
            <==> AnyOverflows(offered, ncol, elemSize, chunks, onDevice)
  {
  }

  lemma CutHasNoEmpty(chunks: seq<Matrix>, ncol: nat, total: nat)
    requires Cut(chunks, ncol, total)
    ensures !HasEmpty(chunks)
  {
  }

  /** However the rows are cut for sampling and cut again for pushing, every call is accepted and the finished dataset
      has the sample and the rows of the whole, unless a device chunk overflows the fallback's cursor. */
  method BuildFromChunks(sampling: seq<Matrix>, pushing: seq<Matrix>, ncol: nat, total: nat, elemSize: nat,
                         sample: seq<int>, declared: Result, numThreads: nat, offered: Binner, onDevice: seq<bool>)
    returns (ds: Option<Dataset>)
    requires CreateCheck(total, ncol, elemSize, true, declared) == Done && total <= INT32_MAX && numThreads > 0
    requires ValidIndices(sample, total) && Cut(sampling, ncol, total) && Cut(pushing, ncol, total)
    requires |onDevice| == |pushing|
    ensures ds.None? <==> AnyOverflows(offered, ncol, elemSize, pushing, onDevice)
    ensures ds.Some? ==> RowsReceived(ds.value, offered, Concat(pushing, ncol), total)
    ensures ds.Some? ==>
              IsDatasetSample(Concat(sampling, ncol), ncol, sample, declared.sentinel, ds.value.values, ds.value.idx)
  {
    CutHasNoEmpty(sampling, ncol, total);
    CutOverflows(offered, ncol, elemSize, pushing, onDevice, total);
    var b := new DeviceDatasetBuilder(total, ncol, elemSize, false, sample, declared, numThreads, offered);
    var s := TrySampling(b, sampling);
    var overflow;
    s, overflow := TryPushing(b, pushing, onDevice);
    ds := None;
    if !overflow {
      s, ds := b.Finish();
    }
  }

  /** The chunked build refines the one-shot build of the concatenated matrices, unless a device chunk overflows. */
  method ChunkedIsOneShot(ms: seq<Matrix>, sampling: seq<Matrix>, pushing: seq<Matrix>, ncol: nat, total: nat,
                          elemSize: nat, sample: seq<int>, declared: Result, numThreads: nat, onDevice: seq<bool>)
    returns (one: Dataset, built: Option<Dataset>)
    requires CreateCheck(total, ncol, elemSize, true, declared) == Done && total <= INT32_MAX && numThreads > 0
    requires ValidIndices(sample, total) && Cut(sampling, ncol, total) && Cut(pushing, ncol, total)
    requires |onDevice| == |pushing|
    requires ValidMatrices(ms, ncol) && Concat(ms, ncol) == Concat(sampling, ncol) == Concat(pushing, ncol)
    ensures built.None? <==> AnyOverflows(NoBinner, ncol, elemSize, pushing, onDevice)
    ensures built.Some? ==>
              built.value.values == one.values && built.value.idx == one.idx && built.value.hostRows == one.hostRows
  {
    var overflow;
    one, overflow := CreateFromMats(ms, ncol, false, sample, declared.sentinel, numThreads);
    built := BuildFromChunks(sampling, pushing, ncol, total, elemSize, sample, declared, numThreads, NoBinner,
                             onDevice);
    if built.Some? {
      BuildersAgree(ms, pushing, ncol, sample, declared.sentinel, one, built.value, total);
    }
  }

  // ---------------------------------------------------------------- FLC_DatasetCreateFromMatsDevice

  /** The checks before the first chunk, in order. */
  ghost function DeviceCheck(ms: seq<Matrix>, ncol: nat, elemSize: nat, cuda: bool, declared: Result): Status {
    if ms == [] then NoMatrices
    else if |Concat(ms, ncol)| >= INT32_MAX then TotalTooLarge
    else CreateCheck(|Concat(ms, ncol)|, ncol, elemSize, cuda, declared)
  }

  function AllOnDevice(n: nat): seq<bool> {
    seq(n, _ => true)
  }

  /** The device build of several matrices: a chunked build with the matrices as chunks. Unlike the host build it
      refuses a matrix without rows. */
  method CreateFromMatsDevice(ms: seq<Matrix>, ncol: nat, elemSize: nat, cuda: bool, hasReference: bool,
                              sample: seq<int>, declared: Result, numThreads: nat, offered: Binner)
    returns (s: Status, overflow: bool, ds: Option<Dataset>)
    requires numThreads > 0 && ValidMatrices(ms, ncol)
    requires DeviceCheck(ms, ncol, elemSize, cuda, declared) == Done ==> ValidIndices(sample, |Concat(ms, ncol)|)
    ensures overflow <==>
              && DeviceCheck(ms, ncol, elemSize, cuda, declared) == Done && (hasReference || !HasEmpty(ms))
              && RunOverflows(offered, ncol, elemSize, ms, AllOnDevice(|ms|))
    ensures !overflow ==>
              s == if DeviceCheck(ms, ncol, elemSize, cuda, declared) != Done
                   then DeviceCheck(ms, ncol, elemSize, cuda, declared)
                   else if HasEmpty(ms) then EmptyChunk
                   else Done
    ensures ds.Some? <==> !overflow && s == Done
    ensures ds.Some? ==> RowsReceived(ds.value, offered, Concat(ms, ncol), |Concat(ms, ncol)|)
    ensures ds.Some? && !hasReference ==>
              IsDatasetSample(Concat(ms, ncol), ncol, sample, declared.sentinel, ds.value.values, ds.value.idx)
    ensures ds.Some? && hasReference ==> ds.value.values == [] && ds.value.idx == []
  {
    overflow, ds := false, None;
    if ms == [] {
      return NoMatrices, false, None;
    }
    var total := 0;
    for j := 0 to |ms|
      invariant total == Offset(ms, j)
    {
      total := total + ms[j].nrow;
    }
    ConcatLength(ms, ncol);
    if total >= INT32_MAX {
      return TotalTooLarge, false, None;
    }
    s := CreateCheck(total, ncol, elemSize, cuda, declared);
    if s == Done {
      s, overflow, ds := DeviceBuild(ms, ncol, total, elemSize, hasReference, sample, declared, numThreads, offered);
    }
  }

  /** The build proper, once the shape is accepted. */
  method DeviceBuild(ms: seq<Matrix>, ncol: nat, total: nat, elemSize: nat, hasReference: bool, sample: seq<int>,
                     declared: Result, numThreads: nat, offered: Binner)
    returns (s: Status, overflow: bool, ds: Option<Dataset>)
    requires CreateCheck(total, ncol, elemSize, true, declared) == Done && total <= INT32_MAX && numThreads > 0
    requires ValidMatrices(ms, ncol) && total == |Concat(ms, ncol)| && ValidIndices(sample, total)
    ensures overflow <==>
              (hasReference || !HasEmpty(ms)) && RunOverflows(offered, ncol, elemSize, ms, AllOnDevice(|ms|))
    ensures !overflow ==> s == if HasEmpty(ms) then EmptyChunk else Done
    ensures ds.Some? <==> !overflow && s == Done
    ensures ds.Some? ==> RowsReceived(ds.value, offered, Concat(ms, ncol), total)
    ensures ds.Some? && !hasReference ==>
              IsDatasetSample(Concat(ms, ncol), ncol, sample, declared.sentinel, ds.value.values, ds.value.idx)
    ensures ds.Some? && hasReference ==> ds.value.values == [] && ds.value.idx == []
  {
    overflow, ds := false, None;
    var b := new DeviceDatasetBuilder(total, ncol, elemSize, hasReference, sample, declared, numThreads, offered);
    if !hasReference {
      s := TrySampling(b, ms);
      if s != Done {
        return;
      }
    }
    s, overflow := TryPushing(b, ms, AllOnDevice(|ms|));
    if !overflow && s == Done {
      s, ds := b.Finish();
    }
  }
}
