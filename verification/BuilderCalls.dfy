/** Any sequence of calls on a builder: sampling, pushing and finishing in any order, host and device chunks mixed,
    rejected calls included. */
module BuilderCalls {
  import opened Blocks
  import opened DatasetBuilder
  import opened DenseMatrix
  import opened DenseSampling
  import opened DeviceBuilder
  import opened Doubles
  import opened MissingSentinel
  import opened Options

  datatype Call = SampleCall(chunk: Matrix, isDevice: bool) | PushCall(chunk: Matrix, isDevice: bool) | FinishCall

  /** What a builder was created with. */
  datatype Shape = Shape(total: nat, ncol: nat, elemSize: nat, hasReference: bool, offered: Binner)

  /** The chunks accepted by each phase so far. */
  datatype Progress = Progress(sampled: seq<Matrix>, pushed: seq<Matrix>)

  ghost function Covered(ms: seq<Matrix>, sh: Shape): nat {
    |Concat(ms, sh.ncol)|
  }

  /** What a call answers once `p` has been accepted. */
  ghost function Answer(sh: Shape, p: Progress, c: Call): Status {
    match c
    case SampleCall(m, _) =>
      if sh.hasReference then SamplingWithReference
      else if p.pushed != [] then SamplingAfterPush
      else if m.nrow == 0 then EmptyChunk
      else if Covered(p.sampled, sh) + m.nrow > sh.total then TooManyRows
      else Done
    case PushCall(m, _) =>
      if m.nrow == 0 then EmptyChunk
      else if Covered(p.pushed, sh) + m.nrow > sh.total then TooManyRows
      else if p.pushed == [] && !sh.hasReference && Covered(p.sampled, sh) != sh.total then SamplingIncomplete
      else Done
    case FinishCall =>
      if Covered(p.pushed, sh) != sh.total then PushIncomplete else Done
  }

  /** An accepted chunk is added, a rejected one is not. */
  ghost function Advance(sh: Shape, p: Progress, c: Call): Progress {
    if Answer(sh, p, c) != Done then p
    else match c
      case SampleCall(m, _) => p.(sampled := p.sampled + [m])
      case PushCall(m, _) => p.(pushed := p.pushed + [m])
      case FinishCall => p
  }

  ghost function Reached(sh: Shape, calls: seq<Call>): Progress {
    if calls == [] then Progress([], [])
    else Advance(sh, Reached(sh, calls[..|calls| - 1]), calls[|calls| - 1])
  }

  ghost function AnswerAt(sh: Shape, calls: seq<Call>, k: nat): Status
    requires k < |calls|
  {
    Answer(sh, Reached(sh, calls[..k]), calls[k])
  }

  /** An accepted chunk overflows the cursor of the device fallback. */
  ghost predicate Overflows(sh: Shape, p: Progress, c: Call) {
    && c.PushCall? && Answer(sh, p, c) == Done
    && PushOverflows(sh.offered, sh.ncol, sh.elemSize, c.chunk, c.isDevice)
  }

  /** The dataset is handed out, and the builder is gone. */
  ghost predicate Ends(sh: Shape, p: Progress, c: Call) {
    c.FinishCall? && Answer(sh, p, c) == Done
  }

  ghost predicate ValidCalls(calls: seq<Call>, ncol: nat) {
    forall k {:trigger calls[k]} | 0 <= k < |calls| :: ValidCall(calls[k], ncol)
  }

  ghost predicate ValidCall(c: Call, ncol: nat) {
    c.FinishCall? || ValidMatrix(c.chunk, ncol)
  }

  lemma ReachedNext(sh: Shape, calls: seq<Call>, k: nat)
    requires k < |calls|
    ensures Reached(sh, calls[..k + 1]) == Advance(sh, Reached(sh, calls[..k]), calls[k])
  {
    assert calls[..k + 1][..k] == calls[..k];
  }

  // ---------------------------------------------------------------- what the protocol guarantees

  lemma CoveredNext(ms: seq<Matrix>, m: Matrix, sh: Shape)
    ensures Covered(ms + [m], sh) == Covered(ms, sh) + m.nrow
  {
    ConcatAppend(ms, m, sh.ncol);
  }

  /** No phase takes more rows than declared; without a reference nothing is pushed before every row was sampled, and
      with one nothing is sampled. */
  ghost predicate InOrder(sh: Shape, p: Progress) {
    && Covered(p.sampled, sh) <= sh.total && Covered(p.pushed, sh) <= sh.total
    && (sh.hasReference ==> p.sampled == [])
    && (!sh.hasReference && p.pushed != [] ==> Covered(p.sampled, sh) == sh.total)
  }

  lemma StaysInOrder(sh: Shape, p: Progress, c: Call)
    requires InOrder(sh, p)
    ensures InOrder(sh, Advance(sh, p, c))
  {
    if !c.FinishCall? {
      CoveredNext(p.sampled, c.chunk, sh);
      CoveredNext(p.pushed, c.chunk, sh);
    }
  }

  lemma {:induction false} ReachedInOrder(sh: Shape, calls: seq<Call>)
    ensures InOrder(sh, Reached(sh, calls))
  {
    if calls != [] {
      ReachedInOrder(sh, calls[..|calls| - 1]);
      StaysInOrder(sh, Reached(sh, calls[..|calls| - 1]), calls[|calls| - 1]);
    }
  }

  /** More calls never take an accepted chunk back, and once a chunk is pushed the sample is closed. */
  lemma {:induction false} ProgressGrows(sh: Shape, calls: seq<Call>, k: nat)
    requires k <= |calls|
    ensures Reached(sh, calls[..k]).sampled <= Reached(sh, calls).sampled
    ensures Reached(sh, calls[..k]).pushed <= Reached(sh, calls).pushed
    ensures Reached(sh, calls[..k]).pushed != [] ==> Reached(sh, calls).sampled == Reached(sh, calls[..k]).sampled
    decreases |calls|
  {
    if k < |calls| {
      var init := calls[..|calls| - 1];
      assert init[..k] == calls[..k];
      ProgressGrows(sh, init, k);
    } else {
      assert calls[..k] == calls;
    }
  }

  /** The accepted samplings and pushes, in order. */
  ghost function Accepted(sh: Shape, calls: seq<Call>): seq<Call> {
    if calls == [] then []
    else
      var init, c := calls[..|calls| - 1], calls[|calls| - 1];
      Accepted(sh, init) + if !c.FinishCall? && Answer(sh, Reached(sh, init), c) == Done then [c] else []
  }

  /** Leaving out the rejected calls changes nothing: the builder reaches the same state, and rejects none. */
  lemma {:induction false} RejectedDoNotMatter(sh: Shape, calls: seq<Call>)
    ensures Reached(sh, Accepted(sh, calls)) == Reached(sh, calls)
    ensures forall k: nat | k < |Accepted(sh, calls)| :: AnswerAt(sh, Accepted(sh, calls), k) == Done
  {
    if calls != [] {
      var init, c := calls[..|calls| - 1], calls[|calls| - 1];
      var kept := Accepted(sh, init);
      RejectedDoNotMatter(sh, init);
      if Accepted(sh, calls) != kept {
        assert (kept + [c])[..|kept|] == kept;
        forall k: nat | k < |kept|
          ensures AnswerAt(sh, kept + [c], k) == Done
        {
          assert (kept + [c])[..k] == kept[..k];
          assert AnswerAt(sh, kept, k) == Done;
        }
      }
    }
  }

  // ---------------------------------------------------------------- the class follows the protocol

  ghost function ShapeOf(b: DeviceDatasetBuilder): Shape {
    Shape(b.totalNrow, b.ncol, b.elemSize, b.hasReference, b.offered)
  }

  /** The builder has accepted exactly `p`. */
  ghost predicate Stands(b: DeviceDatasetBuilder, p: Progress)
    reads b, b.sampleBlock
  {
    b.Valid() && b.sampled == p.sampled && b.pushed == p.pushed && (b.dataset.Some? <==> p.pushed != [])
  }

  /** A dataset with the sample of one list of chunks and the rows of the other. */
  ghost predicate Received(ds: Dataset, sh: Shape, p: Progress, sample: seq<int>, sentinel: Double) {
    && RowsReceived(ds, sh.offered, Concat(p.pushed, sh.ncol), sh.total)
    && (if sh.hasReference then ds.values == [] && ds.idx == []
        else
          && ValidIndices(sample, Covered(p.sampled, sh))
          && IsDatasetSample(Concat(p.sampled, sh.ncol), sh.ncol, sample, sentinel, ds.values, ds.idx))
  }

  method PerformSample(b: DeviceDatasetBuilder, c: Call, ghost p: Progress) returns (s: Status)
    requires Stands(b, p) && c.SampleCall? && ValidCall(c, b.ncol)
    modifies b, b.sampleBlock
    ensures b.sampleBlock == old(b.sampleBlock)
    ensures s == Answer(ShapeOf(b), p, c) && Stands(b, Advance(ShapeOf(b), p, c))
  {
    s := b.SampleChunk(c.chunk);
  }

  method PerformPush(b: DeviceDatasetBuilder, c: Call, ghost p: Progress) returns (s: Status, overflow: bool)
    requires Stands(b, p) && c.PushCall? && ValidCall(c, b.ncol)
    modifies b
    ensures b.sampleBlock == old(b.sampleBlock)
    ensures overflow <==> Overflows(ShapeOf(b), p, c)
    ensures !overflow ==> s == Answer(ShapeOf(b), p, c) && Stands(b, Advance(ShapeOf(b), p, c))
  {
    s, overflow := b.PushChunk(c.chunk, c.isDevice);
  }

  method PerformFinish(b: DeviceDatasetBuilder, ghost p: Progress) returns (s: Status, ds: Option<Dataset>)
    requires Stands(b, p)
    ensures s == Answer(ShapeOf(b), p, FinishCall) && (ds.Some? <==> s == Done)
    ensures ds.Some? ==> Received(ds.value, ShapeOf(b), p, b.sampleIndices, b.sentinel)
  {
    s, ds := b.Finish();
  }

  method Perform(b: DeviceDatasetBuilder, c: Call, ghost p: Progress)
    returns (s: Status, overflow: bool, ds: Option<Dataset>)
    requires Stands(b, p) && ValidCall(c, b.ncol)
    modifies b, b.sampleBlock
    ensures b.sampleBlock == old(b.sampleBlock)
    ensures overflow <==> Overflows(ShapeOf(b), p, c)
    ensures !overflow ==> s == Answer(ShapeOf(b), p, c) && Stands(b, Advance(ShapeOf(b), p, c))
    ensures ds.Some? <==> Ends(ShapeOf(b), p, c)
    ensures ds.Some? ==> Received(ds.value, ShapeOf(b), p, b.sampleIndices, b.sentinel)
  {
    overflow, ds := false, None;
    match c {
      case SampleCall(_, _) =>
        s := PerformSample(b, c, p);
      case PushCall(_, _) =>
        s, overflow := PerformPush(b, c, p);
      case FinishCall =>
        s, ds := PerformFinish(b, p);
    }
  }

  /** The first calls were answered as the protocol says; none of them overflowed or handed the dataset out. */
  ghost predicate Answered(sh: Shape, calls: seq<Call>, answers: seq<Status>) {
    && |answers| <= |calls|
    && forall k: nat {:trigger answers[k]} | k < |answers| :: Goes(sh, Reached(sh, calls[..k]), calls[k], answers[k])
  }

  /** The call is answered with `s`, and the builder goes on. */
  ghost predicate Goes(sh: Shape, p: Progress, c: Call, s: Status) {
    s == Answer(sh, p, c) && !Overflows(sh, p, c) && !Ends(sh, p, c)
  }

  lemma AnsweredNext(sh: Shape, calls: seq<Call>, answers: seq<Status>, p: Progress, s: Status)
    requires Answered(sh, calls, answers) && |answers| < |calls| && p == Reached(sh, calls[..|answers|])
    requires Goes(sh, p, calls[|answers|], s)
    ensures Answered(sh, calls, answers + [s])
  {
    var more := answers + [s];
    forall k: nat {:trigger more[k]} | k < |more|
      ensures Goes(sh, Reached(sh, calls[..k]), calls[k], more[k])
    {
      if k < |answers| {
        assert more[k] == answers[k];
      }
    }
  }

  /** The call after those answered. */
  method PerformNext(b: DeviceDatasetBuilder, calls: seq<Call>, answers: seq<Status>, ghost p: Progress)
    returns (more: seq<Status>, overflow: bool, ds: Option<Dataset>, ghost next: Progress)
    requires Stands(b, p) && ValidCalls(calls, b.ncol) && |answers| < |calls|
    requires Answered(ShapeOf(b), calls, answers) && p == Reached(ShapeOf(b), calls[..|answers|])
    modifies b, b.sampleBlock
    ensures b.sampleBlock == old(b.sampleBlock)
    ensures overflow <==> Overflows(ShapeOf(b), p, calls[|answers|])
    ensures ds.Some? <==> Ends(ShapeOf(b), p, calls[|answers|])
    ensures ds.Some? ==> Received(ds.value, ShapeOf(b), p, b.sampleIndices, b.sentinel)
    ensures |more| == |answers| + (if overflow || ds.Some? then 0 else 1) && (|more| == |answers| ==> next == p)
    ensures Answered(ShapeOf(b), calls, more) && next == Reached(ShapeOf(b), calls[..|more|])
    ensures !overflow && ds.None? ==> Stands(b, next)
  {
    ghost var sh := ShapeOf(b);
    var s;
    more, next := answers, p;
    s, overflow, ds := Perform(b, calls[|answers|], p);
    if !overflow && ds.None? {
      AnsweredNext(sh, calls, answers, p, s);
      ReachedNext(sh, calls, |answers|);
      more, next := answers + [s], Advance(sh, p, calls[|answers|]);
    }
  }

  /** Any sequence of calls, up to the one that hands the dataset out or overflows. A dataset that is handed out has the
      sample of the chunks whose sampling was accepted and the rows of the chunks whose push was accepted. */
  method Run(b: DeviceDatasetBuilder, calls: seq<Call>)
    returns (answers: seq<Status>, overflow: bool, ds: Option<Dataset>, ghost p: Progress)
    requires Stands(b, Progress([], [])) && ValidCalls(calls, b.ncol)
    modifies b, b.sampleBlock
    ensures Answered(ShapeOf(b), calls, answers) && p == Reached(ShapeOf(b), calls[..|answers|])
    ensures |answers| < |calls| <==> overflow || ds.Some?
    ensures overflow <==> |answers| < |calls| && Overflows(ShapeOf(b), p, calls[|answers|])
    ensures ds.Some? <==> |answers| < |calls| && Ends(ShapeOf(b), p, calls[|answers|])
    ensures ds.Some? ==> Received(ds.value, ShapeOf(b), p, b.sampleIndices, b.sentinel)
  {
    ghost var sh := ShapeOf(b);
    answers, overflow, ds, p := [], false, None, Progress([], []);
    while |answers| < |calls|
      invariant Answered(sh, calls, answers) && !overflow && ds.None?
      invariant p == Reached(sh, calls[..|answers|]) && Stands(b, p)
      invariant b.sampleBlock == old(b.sampleBlock)
      decreases |calls| - |answers|
    {
      answers, overflow, ds, p := PerformNext(b, calls, answers, p);
      if overflow || ds.Some? {
        return;
      }
    }
  }

  /** A complete build from any sequence of calls. */
  method BuildByCalls(calls: seq<Call>, sh: Shape, sample: seq<int>, declared: Result, numThreads: nat)
    returns (answers: seq<Status>, overflow: bool, ds: Option<Dataset>, ghost p: Progress)
    requires CreateCheck(sh.total, sh.ncol, sh.elemSize, true, declared) == Done && sh.total <= INT32_MAX
    requires numThreads > 0 && ValidIndices(sample, sh.total) && ValidCalls(calls, sh.ncol)
    ensures Answered(sh, calls, answers) && p == Reached(sh, calls[..|answers|])
    ensures overflow <==> |answers| < |calls| && Overflows(sh, p, calls[|answers|])
    ensures ds.Some? <==> |answers| < |calls| && Ends(sh, p, calls[|answers|])
    ensures ds.Some? ==> Received(ds.value, sh, p, sample, declared.sentinel)
  {
    var b := new DeviceDatasetBuilder(sh.total, sh.ncol, sh.elemSize, sh.hasReference, sample, declared, numThreads,
                                      sh.offered);
    assert ShapeOf(b) == sh;
    answers, overflow, ds, p := Run(b, calls);
  }

  /** Whatever calls made up a build, its dataset is the one-shot dataset of the same rows. */
  method CallsAreOneShot(ms: seq<Matrix>, calls: seq<Call>, sh: Shape, sample: seq<int>, declared: Result,
                         numThreads: nat)
    returns (one: Dataset, built: Option<Dataset>, ghost p: Progress)
    requires CreateCheck(sh.total, sh.ncol, sh.elemSize, true, declared) == Done && sh.total <= INT32_MAX
    requires numThreads > 0 && ValidIndices(sample, sh.total) && ValidCalls(calls, sh.ncol)
    requires sh.offered == NoBinner && !sh.hasReference
    requires ValidMatrices(ms, sh.ncol) && |Concat(ms, sh.ncol)| == sh.total
    ensures built.Some? && Concat(p.sampled, sh.ncol) == Concat(p.pushed, sh.ncol) == Concat(ms, sh.ncol) ==>
              built.value.values == one.values && built.value.idx == one.idx && built.value.hostRows == one.hostRows
    ensures built.Some? ==> exists k: nat :: k < |calls| && p == Reached(sh, calls[..k]) && Ends(sh, p, calls[k])
  {
    var answers, overflow;
    one, overflow := CreateFromMats(ms, sh.ncol, false, sample, declared.sentinel, numThreads);
    answers, overflow, built, p := BuildByCalls(calls, sh, sample, declared, numThreads);
    if built.Some? && Concat(p.sampled, sh.ncol) == Concat(p.pushed, sh.ncol) == Concat(ms, sh.ncol) {
      BuildersAgree(ms, p.pushed, sh.ncol, sample, declared.sentinel, one, built.value, sh.total);
    }
  }
}
