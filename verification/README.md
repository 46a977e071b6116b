# Verified model of Falcata's C API core, bin arithmetic and benchmark tooling

This project models the parts of Falcata (a CUDA fork of LightGBM) whose correctness rests on bookkeeping rather than
on numerics, and proves what their comments and documentation promise, for all inputs:

* **Sparse prediction output** (`SparseLayout`, `SparseAggregate`, `SparseCsc`, `SparseCsr`, `SparseRoundTrip`).
  Per-row hash maps, one per model, are laid out as CSR or CSC matrices. Hash map iteration and parallel loops are
  nondeterministic choices (`Unordered.TakeAny`).
* **Dense ingestion** (`HalfFloats`, `DenseMatrix`, `DenseSampling`, `MissingSentinel`, `RowPush`, `DatasetBuilder`,
  `DeviceBuilder`, `BuilderRuns`, `BuilderCalls`). The column-parallel samplers, the host fallback that re-chunks
  device matrices, and the chunked `DeviceDatasetBuilder`, all proved to agree with the plain loop over one
  concatenated matrix.
* **Booster reconfiguration** (`BoosterConfig`, `BoosterParts`, `BoosterSteps`, `BoosterState`, `BoosterRuns`). The
  booster owns objects that GBDT points to; a ghost set holds the live ones, and every step of a reset is watched. A
  state machine says what each operation does, for every outcome of the code outside the model.
* **Bins** (`Doubles`, `BinMapper`, `BinColumn`, `CscIterator`, `HistogramReducer`). The bin search, the storage that
  leaves out the most frequent bin, the CSC column iterator, and the packed histogram reducers.
* **Parameters** (`ParameterAlias`). Alias resolution over hash maps.
* **Benchmarks** (`BenchLog`, `BenchRunner`, `Numpy`, `CategoryRecoding`, `EraSplit`). The resumable runner with its
  append-only log, and the two data preparations with an index algorithm.

`Blocks`, `Division`, `FiniteSets`, `Options` and `Unordered` hold shared definitions. Check everything with
`dafny verify dfyconfig.toml`.

Code that works by changing things step by step is modelled by methods with loops, arrays and classes, each proved
against a specification function or predicate; the promises are then proved about those specifications.

## What turned out to need a condition

Each of these is proved in both directions, or has its exact cause.

* The CSR output reads array position -1 exactly when there are no rows and at least two matrices
  (`SparseCsr.PredictSparseCSR`).
* 32-bit sparse pointers are exact exactly when the matrix's element count fits (`SparseLayout.PointersExactIff`).
* The CSC output stores row numbers as 32-bit integers without a check (src/c_api.cpp:819-820). A column reads back in
  every row, and agrees with the CSR output, exactly when it is empty from row 2^31 on (`SparseRoundTrip.CscReadsIff`,
  `SparseRoundTrip.CsrIsCsc`); up to 2^31 rows that holds for every column (`SparseRoundTrip.FewRowsFit`,
  `Blocks.ToInt32ExactIff`). An entry in row 2^31 is lost (`SparseRoundTrip.LateRowLost`).
* The size of the CSC pointer array is computed in 32 bits, that of the CSR pointer array in 64. With `ncol` input
  columns it overflows exactly when `ncol + 2` or `(ncol + 2) * num_matrices` exceeds 2^31 - 1
  (`SparseCsc.PredictSparseCSC`); with 1000 classes, from 2,147,482 columns on (`SparseCsc.ThousandClasses`).
* Prediction from a CSC matrix narrows the number of rows to 32 bits (src/c_api.cpp:3434): every row is predicted
  exactly when there are at most 2^31 - 1, and of 2^31 rows none is, in a call that succeeds
  (`CscIterator.AllRowsIff`, `CscIterator.TooManyRows`). The number of columns is narrowed the same way
  (src/c_api.cpp:3413); when it becomes negative, the call fails as soon as there is a row
  (`CscIterator.PredictRows`).
* The 32-bit position of the CSC iterator overflows when it passes the end of a column of 2^31 - 1 stored elements,
  which loading a column does exactly when it loads the stored elements alone (`CscIterator.LoadColumn`).
* The 32-bit row cursor of the device fallback overflows exactly when the first multiple of the chunk size not below the
  row count exceeds 2^31 - 1. All rows have been pushed by then, but the behaviour from there on is undefined, so every
  promise of a chunked build holds only if no device chunk overflows (`RowPush.PushDeviceMatrixViaHost`,
  `RowPush.CursorOverflows`, `BuilderRuns.BuildFromChunks`).
* The host build of several matrices sums their row counts in 32 bits without a check, and promises nothing when the sum
  exceeds 2^31 - 1 (`DatasetBuilder.CreateFromMats`); the device build refuses such a sum.
* The device build of several matrices refuses a matrix without rows, which the host build accepts
  (`BuilderRuns.CreateFromMatsDevice` against `DatasetBuilder.CreateFromMats`).
* Rewriting the missing sentinel after sampling equals rewriting first exactly when the sentinel is not zero, the value
  the parser refuses (`MissingSentinel.SentinelCommutesIff`).
* A reset leaves GBDT with a dangling pointer only through a refusal that comes after GBDT took the new pointers: a
  random forest given a custom objective, or a validation set whose metric count changes. The second needs an empty
  metric list at construction (`metric=","`), to which an objective reset adds the objective's metric
  (`BoosterState.Booster.ResetConfig`, `BoosterRuns.EmptyMetricListExample`).
* A CUDA metric converts the scores only through a CUDA objective. Host metrics may stand beside a device objective: the
  metric factory falls back to a host class for the names without a CUDA one (such as `ndcg`, the default metric of
  `lambdarank`), and dart gets host metrics. Over every run every device metric stands beside a device objective, unless
  a reset switches `rf_device_objective` of a device-capable random forest without naming the objective, which no check
  compares: switched on beside a host objective, the next validation set gets a CUDA metric; switched off beside CUDA
  metrics of a validation set, the next training data gets a host objective (`BoosterSteps.ReadyKeptIff`,
  `BoosterSteps.StepKeeps`, `BoosterRuns.Run`, `BoosterRuns.ForestPlanOnExample`, `BoosterRuns.ForestPlanOffExample`).
* An accepted reset is refused after the booster's configuration has taken all its keys, and leaves them there, exactly
  when its objective crosses between one class and several (`BoosterConfig.ConflictIff`, `BoosterConfig.ClassCrossing`).
* A reset may not change `data_random_seed`, but one that gives `seed` does so unless the derived value is the same
  (`BoosterConfig.RandomSeedKeptIff`, `BoosterConfig.SeedChangesDataSeed`).
* `ResetTrainingData` replaces the old objective and metrics before GBDT has the new ones, so GBDT points to dead
  objects in between exactly when it pointed to any.
* `BinToValue` followed by `ValueToBin` is the identity on every number bin and never on the NaN bin. The bound stored
  for the NaN bin is the enumerator `MissingType::NaN` of an unscoped enum, hence the number 2, and not an IEEE NaN
  (src/io/bin.cpp:461 with include/Falcata/bin.h:29-33); this is why a mapper with a NaN bin stays aligned with itself
  (`BinMapper.BinRoundTripIff`, `BinMapper.SelfAlignedIff`, `BinMapper.NanBinSelfAligned`).
* Loading only the stored elements of a CSC column is right exactly when zero falls into the most frequent bin or no row
  is absent (`CscIterator.StoredSufficeIff`).
* The packed reducers round the byte length up to words of twice the declared lane size, in 32 bits: this overflows
  exactly when the length and one word exceed 2^31 - 1 together (`HistogramReducer.SumReducer`), and every length
  reaches exactly the words it has bytes in if and only if the declared size is that of a lane
  (`HistogramReducer.StepsExactIff`).
* Whole-word addition adds the packed lanes separately exactly when the two lane totals fit
  (`HistogramReducer.ReduceAddsLanesIff`).
* A benchmark cell is recorded twice exactly when it is requested twice and reached twice
  (`BenchRunner.Results.Child`, `BenchRunner.TwiceAsked`); the command line does not reject duplicates.

## Model

| member | source | states |
|---|---|---|
| SparseLayout.SlotsTile | src/c_api.cpp:774-816 | every position below the element count belongs to exactly one (matrix, line, rank) slot, so all slots are written once |
| SparseLayout.SlotOrder | src/c_api.cpp:784-803 | slots of earlier matrices, lines and ranks come strictly first |
| SparseLayout.PointersExactIff | src/c_api.cpp:786-790 | the stored pointers of a matrix are the true ones iff its element count fits the pointer type |
| SparseLayout.ReadBaseIs | src/c_api.cpp:801-803 | a reader that sums the last pointers of the earlier matrices finds where a matrix begins |
| SparseAggregate.ColumnsEqualRows | src/c_api.cpp:613-621 | counting by columns and counting by rows gives the same element count |
| SparseAggregate.SameMatrixStarts | src/c_api.cpp:681-683 | the CSR and the CSC layout place every matrix at the same offset |
| SparseAggregate.ColumnEntries | src/c_api.cpp:811-827 | column c of a matrix holds exactly the rows whose map has key c, in ascending row order |
| SparseAggregate.CountElements | src/c_api.cpp:613-621 | the size pass returns the start of the matrix past the last |
| SparseCsc.CountColumns | src/c_api.cpp:758-766 | whatever the key order, the counting pass returns every column's length |
| SparseCsc.WriteColPtr | src/c_api.cpp:775-804 | one matrix's pointers are the prefix sums of its column sizes, starting at 0 and ending at its count |
| SparseCsc.ScatterRow | src/c_api.cpp:813-827 | a row's entries, in any key order, land at the next free slot of their columns with the 32-bit row number, and nothing else changes |
| SparseCsc.ScatterMatrix | src/c_api.cpp:811-828 | a matrix's scatter stores every column completely within the matrix's own range, row numbers in 32 bits |
| SparseCsc.ScatterAll | src/c_api.cpp:807-831 | the matrices may be scattered in any order; row numbers are stored in 32 bits |
| SparseCsc.PredictSparseCSC | src/c_api.cpp:727-834 | the 32-bit size of the pointer array overflows iff (ncol + 2) times the matrices, or ncol + 2, exceeds 2^31 - 1; otherwise unknown types are refused in order, or pointers, 32-bit row numbers and values are the CSC form of the aggregate |
| Blocks.ToInt32ExactIff | src/c_api.cpp:819-820 | the row numbers below n all survive the narrowing iff n is at most 2^31 |
| SparseCsc.IndicesAreInt32 | src/c_api.cpp:819-820 | every stored row number is a 32-bit integer, however many rows there are |
| SparseCsr.RowLayout | src/c_api.cpp:661-684 | row sizes, offsets and matrix offsets are right iff the position read for the next matrix exists |
| SparseCsr.WriteRow | src/c_api.cpp:703-711 | a row's entries fill exactly its range, in some key order |
| SparseCsr.WriteMatrixRows | src/c_api.cpp:694-720 | the rows of a matrix may be written in any order; their ranges do not meet |
| SparseCsr.PredictSparseCSR | src/c_api.cpp:636-725 | the output is the CSR form of the aggregate, or position -1 is read iff there are no rows and several matrices |
| SparseRoundTrip.CscReads | src/c_api.cpp:757-830 | in a column that is empty from row 2^31 on, looking up (matrix m, column c, row i) in the CSC output returns `store(agg[i][m][c])` if that key is there, else nothing |
| SparseRoundTrip.CscReadsIff | src/c_api.cpp:819-820 | a column reads back in every row iff it is empty from row 2^31 on |
| SparseRoundTrip.LateRowUnread | src/c_api.cpp:819-820 | looking up a row from 2^31 on finds nothing |
| SparseRoundTrip.LateRowLost | src/c_api.cpp:819-820 | an aggregate whose one entry is in row 2^31 loses it |
| SparseRoundTrip.CsrReads | src/c_api.cpp:661-722 | looking up (matrix m, row i, column c) in the CSR output returns `store(agg[i][m][c])` if that key is there, else nothing |
| SparseRoundTrip.CsrIsCsc | src/c_api.cpp:636-834 | the CSR and the CSC output give the same elements of a column in every row iff the column is empty from row 2^31 on |
| SparseRoundTrip.CscDeterministic | src/c_api.cpp:807-830 | the CSC arrays are the same for every iteration order |
| HalfFloats.HalfBitsToFloat | include/Falcata/utils/common.h:646-671 | the 32 bits built from a half, by the shift loop for subnormals, are those of the float with the half's value; infinities and NaN stay |
| HalfFloats.Normalize | include/Falcata/utils/common.h:656-663 | shifting a subnormal mantissa up while lowering the exponent ends with its leading bit in place and the same value |
| HalfFloats.HalfSign | include/Falcata/utils/common.h:647-652 | the sign bit negates a finite half; exponent 31 is infinite without a fraction and NaN with one |
| HalfFloats.HalfDoubles | include/Falcata/utils/common.h:665-667 | one more in the exponent doubles a normal half |
| HalfFloats.HalfSteps | include/Falcata/utils/common.h:653-667 | neighbouring halves of a binade are equally far apart, up to the next binade, and subnormals as far as in the first |
| HalfFloats.HalfAnchors | include/Falcata/utils/common.h:654-667 | bits 0 are 0.0 and bits 0x3C00 are 1.0, which with the laws above determines every half |
| DenseMatrix.IntegersDecode | src/c_api.cpp:4002-4004 | 0 decodes to 0.0 and every integer to one more than the one before |
| DenseMatrix.KeptIffPasses | src/c_api.cpp:3913-3917 | the integer and half filters keep exactly the values that pass the zero-threshold-or-NaN filter |
| Doubles.ThresholdIsNearest | include/Falcata/meta.h:62 | no multiple of 2^-140 is nearer to 1e-35 than the threshold |
| Doubles.PassesIff | src/c_api.cpp:1591 | the filter keeps NaN, the infinities and what is farther from zero than the threshold |
| DenseMatrix.ConcatAt | src/c_api.cpp:1581-1589 | row r of matrix j is row Offset(j) + r of the concatenation |
| DenseSampling.LocateRows | src/c_api.cpp:3923-3936 | the ascending walk finds every sampled row's matrix and row |
| DenseSampling.SampleSequential | src/c_api.cpp:1580-1597 | the per-row loop draws the specified sample of the concatenated matrix |
| DenseSampling.ColBlocksTile | src/c_api.cpp:3964-3968 | for every number of blocks each column lies in exactly one block |
| DenseSampling.ReadCellIs | src/c_api.cpp:3972-3978 | the gathered path and the direct path read the same element |
| DenseSampling.CountBlock | src/c_api.cpp:3969-3983 | the counting pass returns what each column is about to append |
| DenseSampling.SampleBlock | src/c_api.cpp:3988-4007 | a block fills its own columns with their samples and no other column |
| DenseSampling.SampleDense | src/c_api.cpp:3919-4093 | the column-parallel samplers draw the sample of the sequential loop, for every thread count, layout and block order |
| DenseSampling.SampleUnique | src/c_api.cpp:4011-4012 | the sample is determined: two correct samplers return the same sequences |
| DenseSampling.SampleMeaning | src/c_api.cpp:3988-4007 | entry k of column c is the decoded cell at the k-th of the sampled rows that pass, in ascending order, and every one that passes is there |
| DenseSampling.IntegerSample | src/c_api.cpp:4002-4004 | for integers, entry k of column c is the k-th nonzero sampled cell itself, as a real |
| MissingSentinel.DenseMissingSentinel | src/c_api.cpp:1138-1167 | accepted iff nothing is declared, or a finite nonzero number on integer or half input with missing values on and no linear tree; the result is NaN or that number |
| MissingSentinel.ApplyMissingSentinelToSample | src/c_api.cpp:1172-1184 | value by value: NaN where it equals the sentinel, the old value elsewhere |
| MissingSentinel.SampleOfConverted | src/c_api.cpp:1169-1184 | for a nonzero sentinel, the rewritten sample is the sample of the rows whose cells were converted one by one, values and indices |
| MissingSentinel.SentinelCommutesIff | src/c_api.cpp:1149-1154 | that holds on every integer or half matrix iff the sentinel is not zero |
| RowPush.ChunkRows | src/c_api.cpp:1711-1713 | a host chunk has as many rows as 256 MB hold, at least one and at most all |
| RowPush.CopyRows | src/c_api.cpp:1717-1729 | the copied chunk holds the same rows, in either layout |
| RowPush.PushDeviceMatrixViaHost | src/c_api.cpp:1707-1756 | re-chunking pushes every row once at its offset unless the cursor overflows, which it does iff its last value exceeds 2^31 - 1 |
| RowPush.CursorOverflows | src/c_api.cpp:1716 | 2^31 - 1 rows of one byte overflow the cursor |
| RowPush.CursorSafe | src/c_api.cpp:1716 | one chunk, or a chunk of headroom, never overflows it |
| DatasetBuilder.CreateFromMats | src/c_api.cpp:1546-1700 | unless the 32-bit row total overflows, which it does iff it exceeds 2^31 - 1, the one-shot build draws the rewritten sample and pushes row i to dataset row i once |
| DatasetBuilder.DatasetSampleUnique | src/c_api.cpp:2027-2029 | the rewritten sample is determined by the rows |
| DatasetBuilder.GatherHostRows | src/c_api.cpp:2080-2099 | the chunk's sampled rows are appended to the block in either layout |
| DatasetBuilder.LocalSample | src/c_api.cpp:1956-1962 | the indices that fall into the chunk are made chunk-local, and the next one lies beyond it |
| DeviceBuilder.CreateCheck | src/c_api.cpp:1907-1928 | creation is accepted iff the device is cuda, the missing sentinel is accepted, the type is known and the shape is not empty; the first of these that fails is reported |
| DeviceBuilder.DeviceDatasetBuilder.constructor | src/c_api.cpp:1907-1934 | a new builder has sampled and pushed nothing |
| DeviceBuilder.DeviceDatasetBuilder.SampleChunk | src/c_api.cpp:1936-1978 | the protocol checks in order; a rejected call changes nothing, an accepted one adds exactly this chunk |
| DeviceBuilder.DeviceDatasetBuilder.PushChunk | src/c_api.cpp:1980-2004 | the same for pushing, unless an accepted chunk overflows the fallback cursor, exactly then reported; without a reference no push precedes complete sampling |
| DeviceBuilder.DeviceDatasetBuilder.SampleGathered | src/c_api.cpp:2027-2055 | the samplers on the gathered block with identity indices return the sample of the concatenated chunks |
| DeviceBuilder.DeviceDatasetBuilder.InitDataset | src/c_api.cpp:2020-2076 | the dataset is built iff the sampling phase covered every row or a reference is given |
| DeviceBuilder.DeviceDatasetBuilder.Finish | src/c_api.cpp:2006-2017 | after pushes without overflow, finishing succeeds iff all rows were pushed, and then row i holds row i of the concatenation once |
| DeviceBuilder.BuildersAgree | src/c_api.cpp:2027-2029 | a finished chunked build and the one-shot build of the same rows have the same sample and rows |
| BuilderRuns.BuildFromChunks | include/Falcata/c_api.h:518-532 | however the rows are cut for sampling and for pushing, host and device chunks mixed, the dataset is that of the whole, unless a device chunk overflows the fallback cursor (iff) |
| BuilderRuns.CreateFromMatsDevice | src/c_api.cpp:2251-2298 | the device build of several matrices refuses in order no matrices, too many rows, what creation refuses, and an empty matrix; it overflows iff it reaches a matrix that does; otherwise its sample and rows are those of the concatenation |
| BuilderRuns.ChunkedIsOneShot | src/c_api.cpp:2027-2029 | running both builds gives equal samples and equal rows, unless a device chunk overflows the fallback cursor (iff) |
| BuilderCalls.Run | include/Falcata/c_api.h:518-532 | every sequence of sampling, pushing and finishing calls, rejected ones included, is answered as the protocol says, up to the first that overflows or hands the dataset out (iff); that dataset has the sample of the accepted samplings and the rows of the accepted pushes |
| BuilderCalls.ReachedInOrder | src/c_api.cpp:1936-2029 | over every sequence of calls, no phase takes more than the declared rows, nothing is sampled with a reference, and without one nothing is pushed before all rows are sampled |
| BuilderCalls.ProgressGrows | src/c_api.cpp:1943-1946 | no call takes an accepted chunk back, and the first push closes the sample |
| BuilderCalls.RejectedDoNotMatter | src/c_api.cpp:1936-2012 | leaving out the rejected calls leads to the same state, with no call rejected |
| BuilderCalls.CallsAreOneShot | src/c_api.cpp:2027-2029 | whatever calls made up a build, its dataset is the one-shot dataset of the same rows |
| BoosterConfig.KeysTakeEffect | src/c_api.cpp:439 | key by key: a given value is in the new configuration, an absent or blank key keeps the old one, apart from the derived cases named |
| BoosterConfig.VerdictIs | src/c_api.cpp:400-437 | the verdict is the first of the rules broken, each written out on the old configuration and the keys; without one the reset is accepted |
| BoosterConfig.Refused | src/c_api.cpp:376-389 | forced splits without data, forced bins and smaller leaves under the prefilter are never accepted |
| BoosterConfig.DefaultsNamed | src/c_api.cpp:275-398 | naming the documented dataset defaults is accepted on a default booster |
| BoosterConfig.DefaultMetricFits | src/io/config.cpp:457-482 | the default metric of an objective is one for as many classes |
| BoosterConfig.DefaultMetricTells | src/io/config.cpp:170-180 | only the two ranking and the two softmax objectives share a default metric |
| BoosterConfig.DefaultMetricKnown | src/metric/metric.cpp:28-148 | the metric factory knows every metric but the custom and the unknown ones, hence the default metric of every other objective |
| BoosterConfig.ObjectiveOnDeviceIff | src/objective/objective_function.cpp:113-119 | an objective gets its CUDA class iff it has one, on a cuda booster that bags, and in a forest if its plan says so |
| BoosterConfig.CudaDefaultMetric | src/metric/metric.cpp:28-89 | which objectives have a CUDA class, in terms of their default metrics |
| BoosterConfig.AcceptedKeeps | src/c_api.cpp:400-439 | an accepted reset keeps boosting, sampling strategy, class count, cuda or not, the metric list, and the dataset keys |
| BoosterConfig.RandomSeedKeptIff | src/c_api.cpp:278-283 | data_random_seed survives an accepted reset iff it is named, no seed is given, or the seed derives the same value |
| BoosterConfig.SeedChangesDataSeed | src/io/config.cpp:276-286 | a reset of seed=1 on a default booster is accepted and changes data_random_seed from 1 to 41 |
| BoosterConfig.ConflictIff | src/io/config.cpp:457-482 | the new configuration of an accepted reset fails the class checks iff its objective crosses between one class and several |
| BoosterConfig.ClassCrossing | src/c_api.cpp:439 | a three-class booster accepts objective=regression, and its configuration is then in conflict |
| BoosterConfig.FactoriesAgree | src/metric/metric.cpp:23-89 | a metric is placed on the device iff the objective is, the booster is not dart and the metric has a CUDA class |
| BoosterConfig.PlacementMovesIff | src/objective/objective_function.cpp:89-110 | an accepted reset without an objective key moves a factory to the device or to the host iff it switches a device-capable forest's plan on or off |
| BoosterParts.ListOnDeviceIff | src/metric/metric.cpp:28-89 | a metric list holds a device metric iff the factory builds on the device and a name has a CUDA class |
| BoosterParts.BuiltTogetherAgree | src/c_api.cpp:443-445 | of objects built from one configuration every device metric stands beside a device objective, and whatever is built next will too |
| BoosterParts.AppendAgrees | src/c_api.cpp:479-485 | one more metric list agrees iff its device metrics have their objective or no name has a CUDA class |
| BoosterParts.RetrainAgrees | src/c_api.cpp:264-273 | a new objective with new training metrics agrees with the validation metrics that stay iff those are all on the host or it is on the device |
| BoosterParts.CountsDecide | src/boosting/gbdt.cpp:308-313 | GBDT's late refusals, in terms of the new configuration and the old metric counts |
| BoosterParts.BrokenDangles | src/c_api.cpp:466-473 | after a late refusal GBDT dangles iff the configuration builds any object |
| BoosterState.Booster.constructor | src/c_api.cpp:189-221 | construction leaves GBDT with exactly the booster's objects, built from the configuration |
| BoosterState.Booster.FromModel | src/c_api.cpp:185-187 | a model-loaded booster owns no objects |
| BoosterState.Booster.CreateMetrics | src/c_api.cpp:250-262 | one metric per known name, on the device iff the factory builds there and the name has a CUDA class; it fails iff a known metric does not initialize, and then destroys what was built |
| BoosterState.Booster.BuildAll | src/c_api.cpp:450-464 | objective, training and validation metrics are built from one configuration, or, iff one of them does not initialize, nothing is left alive |
| BoosterState.Booster.Handover | src/boosting/gbdt.cpp:945-974 | GBDT ends with exactly the new pointers, unchanged, or broken by a late refusal, never on a dead object |
| BoosterState.Booster.Commit | src/c_api.cpp:471-473 | the old objects die only after GBDT let go of them |
| BoosterState.Booster.ResetConfig | src/c_api.cpp:400-477 | the status is decided by the state and the environment; the configuration changes unless the checks refuse; objects change exactly when an objective reset commits; no step dangles but a late refusal |
| BoosterState.Booster.AddValidData | src/c_api.cpp:479-485 | the lists stay of equal length; agreement survives iff the new device metrics have their objective |
| BoosterState.Booster.CreateObjectiveAndMetrics | src/c_api.cpp:231-245 | new objects replace old ones that GBDT may still point to |
| BoosterState.Booster.ResetTrainingData | src/c_api.cpp:264-273 | afterwards GBDT's pointers are the new objects; in between it dangles iff it pointed to any object; agreement holds afterwards iff the validation metrics that stay have their objective |
| BoosterSteps.ReadyKeptIff | src/c_api.cpp:439-446 | an accepted reset without an objective key leaves what is built next in agreement iff it makes no harmful switch of a forest plan |
| BoosterSteps.StepKeeps | src/c_api.cpp:247-249 | every step keeps each device metric beside a device objective; unless it fails or switches a plan harmfully, also whatever is built next |
| BoosterSteps.BuildAgreesIff | src/c_api.cpp:264-273 | in any state, adding a validation set or changing the training data keeps agreement iff the new metrics, or those that stay, have their objective |
| BoosterSteps.SwitchedOnBreaks | src/objective/objective_function.cpp:113-119 | a host forest whose plan is switched on gets a CUDA metric beside its host objective on its next validation set |
| BoosterSteps.SwitchedOffBreaks | src/objective/objective_function.cpp:113-119 | a device forest whose plan is switched off gets a host objective beside its CUDA validation metrics on its next training data |
| BoosterSteps.RunsAgree | src/c_api.cpp:443-445 | over every run that nothing stops, every state has each device metric beside a device objective |
| BoosterRuns.Run | src/c_api.cpp:443-445 | the class follows the state machine over every sequence of operations, up to the first that fails after changing the configuration or switches a plan harmfully, no earlier and no later; all states agree |
| BoosterRuns.ForestPlanOnExample | src/objective/objective_function.cpp:89-93 | a host forest with its plan switched on ends with a CUDA metric beside its host objective |
| BoosterRuns.ForestPlanOffExample | src/objective/objective_function.cpp:89-93 | a device forest with its plan switched off ends with a host objective beside a CUDA metric |
| BoosterRuns.EmptyMetricListExample | src/boosting/gbdt.cpp:310-311 | resetting the objective of a booster with an empty metric list and a validation set is refused late and leaves GBDT dangling |
| BinMapper.ValueToBin | include/Falcata/bin.h:645-670 | the binary search terminates and returns the number of searchable bounds below the value |
| BinMapper.BinInterval | include/Falcata/bin.h:662-669 | a number is in bin k iff it is above the bound before it and not above its own |
| BinMapper.BinMonotone | include/Falcata/bin.h:645-670 | larger numbers never get smaller bins |
| BinMapper.BinRoundTripIff | include/Falcata/bin.h:139-145 | the bin of a bin's value is that bin iff it is not the NaN bin |
| BinMapper.BinToValueLargest | include/Falcata/bin.h:139-145 | the value of a bin below the last number bin is the largest number of the bin |
| BinMapper.NanIsBinned | include/Falcata/bin.h:646-654 | a NaN goes to the last bin with NaN missing type, otherwise to the bin of 0.0 |
| Doubles.OrderIsReal | include/Falcata/bin.h:662-669 | numbers are ordered as reals between the infinities; NaN is in no relation |
| BinMapper.NumbersMissNanBinIff | include/Falcata/bin.h:658-661 | with NaN missing type no number reaches the NaN bin iff there is another bin |
| BinMapper.CheckAlign | include/Falcata/bin.h:93-114 | true iff sizes, missing types and all bounds are IEEE-equal |
| BinMapper.AlignedBinAlike | include/Falcata/bin.h:93-114 | aligned mappers bin every value alike |
| BinMapper.SelfAlignedIff | include/Falcata/bin.h:101-104 | a mapper is aligned with itself iff no bound is NaN |
| BinMapper.NanBinSelfAligned | src/io/bin.cpp:461 | with the NaN bin's stored bound 2, a mapper of ascending bounds is valid and aligned with itself |
| BinColumn.Encode | include/Falcata/feature_group.h:278-289 | a stored bin decodes to itself and never looks like untouched storage |
| BinColumn.EncodePacks | include/Falcata/feature_group.h:282-289 | the stored bins fill the feature's range from its offset on, in order, without a place for bin 0 when it is the most frequent |
| BinColumn.Pushed | include/Falcata/feature_group.h:254-268 | a push stores the value's bin, or leaves the cell if it is the most frequent one |
| BinColumn.PushBlock | include/Falcata/bin.h:308-322 | pushing a block of pre-encoded bins is pushing the values one by one |
| CscIterator.RowIterator.Get | src/c_api.cpp:4214-4230 | for nondecreasing queries, the column's value at the row, or zero |
| CscIterator.RowIterator.NextNonZero | src/c_api.cpp:4232-4243 | the stored elements in order, then the end forever; the 32-bit position overflows iff it counts past 2^31 - 1 |
| CscIterator.LoadColumn | src/c_api.cpp:2511-2529 | both loading paths leave every row's bin, explicit zeros included, unless the first overflows its position, which it does iff there are 2^31 - 1 stored elements or more |
| CscIterator.StoredSufficeIff | src/c_api.cpp:2513-2524 | the stored elements suffice iff zero is in the most frequent bin or no row is absent |
| CscIterator.OneRow | src/c_api.cpp:3421-3433 | one thread's iterators produce exactly the row's values that pass the filter |
| CscIterator.SparseRowIs | src/c_api.cpp:3421-3433 | a pair (j, v) is in the row iff column j has the value v there and v passes the filter; the columns ascend |
| CscIterator.PredictRows | src/c_api.cpp:3413-3435 | the rows counted by the 32-bit row number are reproduced from the columns counted by the 32-bit column number, for every number of threads of a static schedule; the call fails iff the column number is negative and there is a row |
| CscIterator.AllRowsIff | src/c_api.cpp:3434 | all rows are reproduced iff there are at most 2^31 - 1 |
| CscIterator.TooManyRows | src/c_api.cpp:3434 | of 2^31 rows none is predicted, and the call succeeds |
| HistogramReducer.LaneBytes | include/Falcata/bin.h:64-76 | a lane is 2 or 4 bytes, its base and its word's modulus the matching powers of 256 |
| HistogramReducer.ReduceIsSum | include/Falcata/bin.h:64-72 | any reduction tree computes the wrapped sum of its leaves |
| HistogramReducer.OrderIndependent | include/Falcata/bin.h:64-82 | trees over the same words give the same word |
| HistogramReducer.ReduceAddsLanesIff | include/Falcata/bin.h:64-82 | the two lanes are added separately iff both lane totals fit |
| HistogramReducer.Int32HistogramSumReducer | include/Falcata/bin.h:64-72 | for every lane size and byte length, the 64-bit words counted by the rounded-up division are added, and no others, unless the rounding overflows 32 bits (iff) |
| HistogramReducer.Int16HistogramSumReducer | include/Falcata/bin.h:74-82 | the same for 32-bit words |
| HistogramReducer.SumReducer | include/Falcata/bin.h:64-82 | for every lane size and byte length, the counted words are added, in any iteration order, and no others, unless the rounding overflows (iff) |
| HistogramReducer.StepsExactIff | include/Falcata/bin.h:67-77 | the words counted are those the bytes reach, for every length, iff the declared lane size is that of the words |
| HistogramReducer.Fold | include/Falcata/bin.h:64-82 | successive reducer calls compute the specified fold of whole histograms, unless the byte length of one overflows (iff) |
| HistogramReducer.FoldedIs | include/Falcata/bin.h:64-82 | every word of the fold is the fold of its column |
| HistogramReducer.FoldOrderFree | include/Falcata/bin.h:64-82 | whole histograms fold to the same words in every order |
| HistogramReducer.FoldAddsLanesIff | include/Falcata/bin.h:64-82 | a folded entry shows the lane totals iff they fit |
| ParameterAlias.SortAliasOrder | include/Falcata/config.h:1343-1345 | shorter-then-alphabetical is a strict total order |
| ParameterAlias.LexLessIff | include/Falcata/config.h:1343-1345 | of two names of one length the first differing character decides |
| ParameterAlias.WinnerGivesValue | include/Falcata/config.h:1372-1376 | a canonical name that was not given takes the value of the shortest given alias, alphabetically first among those, and that alias disappears |
| ParameterAlias.FirstAliases | include/Falcata/config.h:1349-1371 | in any iteration order the first loop finds every canonical name's first alias |
| ParameterAlias.KeyAliasTransform | include/Falcata/config.h:1348-1383 | in any iteration order the map is resolved: winners move, losers and explicit names stay |
| ParameterAlias.ResolvedUnique | include/Falcata/config.h:1348-1383 | the resolved map depends on the parameters alone |
| ParameterAlias.CanonicalKept | include/Falcata/config.h:1372-1382 | an explicitly given canonical name is never overridden |
| ParameterAlias.AliasTakesEffect | include/Falcata/config.h:1372-1376 | whenever an alias is given, its canonical name is in the resolved map |
| ParameterAlias.Idempotent | include/Falcata/config.h:1348-1383 | resolving again changes nothing |
| BenchLog.DoneStatus | benchmarks/orchestrate.py:71-82 | without duplicates the dictionary shows every record's status |
| BenchLog.DoneIsLast | benchmarks/orchestrate.py:71-82 | the dictionary shows a status iff it is that of the cell's last record |
| BenchLog.WarmupLookup | benchmarks/bench.py:845 | the lookup succeeds iff the last record with the library, dataset and regime of the cell and kind warmup says failed |
| BenchLog.UnrecordedInOrder | benchmarks/bench.py:827 | the cells to do keep their order |
| BenchLog.OfPairInOrder | benchmarks/orchestrate.py:157-160 | a pair's cells keep their order |
| BenchLog.OfPairHas | benchmarks/orchestrate.py:157-160 | a pair's cells are those with its library and its dataset |
| BenchRunner.Results.Child | benchmarks/bench.py:824-862 | a child that may die anywhere records the first cells to do, in order; a record says skipped iff the last record of its library, dataset and regime with kind warmup said failed |
| BenchRunner.Results.RunGroup | benchmarks/orchestrate.py:162-224 | the parent adds one record, for the first cell the child left out: timeout after a timeout, else failed |
| BenchRunner.GroupProgress | benchmarks/orchestrate.py:206-224 | a completed group run with something to do leaves strictly fewer cells without a record |
| BenchRunner.GroupByPair | benchmarks/orchestrate.py:157-160 | every pair once, with its cells in order |
| BenchRunner.Results.Launch | benchmarks/orchestrate.py:141-224 | no duplicates, nothing lost, only requested cells recorded, and a finished launch leaves fewer cells of every pair that had any left |
| BenchRunner.Results.RelaunchUntilDone | benchmarks/orchestrate.py:153-156 | relaunching ends, within one launch per missing cell, with every cell recorded |
| BenchRunner.Results.Session | benchmarks/orchestrate.py:153-162 | over every sequence of launches, crashes and interruptions the log only grows and no cell has two records |
| BenchRunner.NotRunAfterFailedWarmup | benchmarks/bench.py:843-856 | no timed cell was ever executed after a record of its library, dataset and regime with kind warmup and status failed |
| BenchRunner.TwiceAsked | benchmarks/orchestrate.py:116-139 | asking for a cell twice records it twice |
| Numpy.Unique | benchmarks/datasets.py:194 | the distinct values in ascending order |
| Numpy.SearchSplits | benchmarks/datasets.py:206 | the search position separates the smaller codes from the others |
| CategoryRecoding.LexSort | benchmarks/datasets.py:195-196 | the categories by descending frequency, then ascending code, each once |
| CategoryRecoding.RankGivesCode | benchmarks/datasets.py:197-198 | the inverted order gives each category the number of categories ahead of it |
| CategoryRecoding.RecodeSplits | benchmarks/datasets.py:193-208 | both splits are recoded in place by the training frequencies alone |
| CategoryRecoding.FrequentFirst | benchmarks/datasets.py:195-200 | the more frequent category never gets the larger code |
| CategoryRecoding.TiesBySize | benchmarks/datasets.py:195-196 | of two equally frequent categories the smaller has fewer ahead of it and never gets the larger code |
| CategoryRecoding.CodeInRange | benchmarks/datasets.py:199-200 | codes lie in [0, rare], and rare is the number of training categories or 254 if there are more |
| CategoryRecoding.SharedCodeIff | benchmarks/datasets.py:199-200 | two training categories share a code iff both are rare |
| CategoryRecoding.RareIff | benchmarks/datasets.py:202-208 | the rare code goes to absent values and to categories with at least 254 ahead of them, and to no others |
| EraSplit.RolesInOrder | benchmarks/datasets.py:269-274 | every embargo era lies strictly between all training and all test eras |
| EraSplit.RoleByPlace | benchmarks/datasets.py:269-274 | the era at place k is tested iff among the last 200, in the embargo iff among the 10 before, trained on otherwise |
| EraSplit.MaskedIs | benchmarks/datasets.py:276-280 | masking keeps exactly the rows under the mask, in order |
| EraSplit.RoleSizes | benchmarks/datasets.py:270-271 | the held-out eras are the last 200, the embargo the 10 before, as far as there are that many |
| EraSplit.TrainThenTest | benchmarks/datasets.py:272-280 | for era-sorted rows the survivors are all training rows followed by all test rows |
| EraSplit.FilterIsSurviving | benchmarks/datasets.py:276-278 | the row mask over the file selects exactly the survivors |
| EraSplit.NumeraiRoles | benchmarks/datasets.py:248-282 | nothing iff the file is not sorted by era; otherwise the mask, its count, and the split point of the survivors |
| EraSplit.Stream | benchmarks/datasets.py:315-328 | batches of any sizes write exactly the masked rows in order |
| EraSplit.MaskedSplits | benchmarks/datasets.py:272-280 | in a sorted file the filtered rows are the training rows followed by the test rows, each in file order |
| EraSplit.PrepNumerai | benchmarks/datasets.py:285-328 | both passes leave exactly the training rows in x[..trainEnd] and the test rows in x[trainEnd..], for every batch size |

## Left out

- GPU kernels, device gathers, memory copies and streams: a device gather is the host gather, the device binner is a
  second log of received rows, and a call that needs CUDA is a parameter.
- Byte addressing of matrices: elements are addressed one by one, so `memcpy` of a row is a slice of it.
- Rounding and float32 narrowing: doubles are ordered values plus NaN, and storing a contribution goes through an
  arbitrary function `store`. Signed zeros are one value.
- SparseCsr.PredictSparseCSR: a negative row count is not representable; the read at position -1 is reported, not
  continued. Row sizes and column numbers are 32-bit in the source; they fit, since the entry point refuses 2^31 - 1
  input columns or more (src/c_api.cpp:3258-3262).
- RowPush.PushDeviceMatrixViaHost: after an overflow of the cursor nothing is promised, since the behaviour is
  undefined.
- DeviceBuilder.DeviceDatasetBuilder.PushChunk: after an overflow of the fallback cursor nothing is promised, not even
  that later calls may be made.
- DatasetBuilder.CreateFromMats: after an overflow of the row total nothing is promised; the sentinel is the accepted
  one, and a matrix that the CUDA device bins whole is pushed by the host loops instead.
- DeviceBuilder.DeviceDatasetBuilder.constructor: `CreateSampleIndices` is not part of this model; the indices are any
  strictly ascending, in-range list, as src/c_api.cpp:1955 states.
- DatasetLoader, FindBin, Random, Predictor and the tree learners: their results are parameters.
- BoosterState.Booster.constructor: a configuration in conflict, an object that does not initialize and the refusals of
  GBDT's Init (a forest without bagging, vector leaves) end the source's constructor; only the other case is modelled.
- BoosterState.Booster.AddValidData: assumes that the metrics initialize and that GBDT accepts the dataset; the source
  pushes the dataset before building the metrics, so a failure there leaves the lists of different lengths.
- BoosterState.Booster.ResetTrainingData: assumes that every build and GBDT's checks succeed, for the same reason.
- BoosterConfig.AcceptedKeeps: parameter texts are parsed values; the adjustments of `CheckParamConflict` other than
  boosting=goss are not modelled, and of the remaining keys only those the checks or the factories read.
- BoosterConfig.ConflictIff: of the refusals of `Config::Set` only the class checks are modelled; the others are choices
  of the environment. A refused Set leaves boosting=goss spelled so, where the model has it resolved already.
- BoosterState.Booster.ResetConfig: early refusals by GBDT (model count, monotone constraints, vector leaves) and the
  outcome of GBDT's own ResetConfig are choices of the environment; neither moves a pointer. The copy of the objective
  pointer in GBDT's sample strategy moves with GBDT's own.
- BinMapper.ValueToBin: categorical mappers are not modelled.
- BinColumn.Encode: a feature alone in its storage; bundled features that share a column are not modelled.
- HistogramReducer.SumReducer: signed overflow of the whole word wraps around.
- CscIterator.LoadColumn: the number of rows is the 32-bit one that src/c_api.cpp:2465 makes of `num_row`; columns with
  rows beyond it are not modelled.
- CscIterator.OneRow: the row function of the sparse output narrows its 64-bit row number before asking the iterators
  (src/c_api.cpp:3282). The iterators hold no row from 2^31 on, but a row number from 2^32 on reads an earlier row; the
  aggregate is any aggregate here.
- CscIterator.PredictRows: the check of the number of columns against the model is not modelled; threads run one after
  the other in any order, since they share neither iterators nor output rows.
- ParameterAlias.KeyAliasTransform: warnings are not modelled, and the caller's map is a value that is replaced.
- BenchRunner.Results.Child: names are numbers, appends are atomic, and a child does not outlive its parent; a
  single-cell call of bench.py without `--cells`, which skips the resume check, is not modelled.
- EraSplit.PrepNumerai: one of the parallel outputs; labels and eras are streamed by the same mask. Files, metadata and
  the removal of stale markers are not modelled.
- Collective algorithms, single-row predictor caches and locks, file formats, Arrow input, R and Python bindings,
  command line, plotting and reporting.
