/** The part of Config that decides which objective and metric objects a booster builds, what a reset may change in
    it, and where the two object factories place their objects. */
module BoosterConfig {

  datatype Device = Cpu | Gpu | Cuda
  datatype Boosting = Gbdt | Dart | Rf
  datatype Strategy = Bagging | Goss

  datatype ObjectiveName = Regression | RegressionL1 | Quantile | Huber | Fair | Poisson | Binary | Lambdarank
                         | RankXendcg | MultiRegression | Multiclass | MulticlassOva
                         | CrossEntropy | CrossEntropyLambda | Mape | Gamma | Tweedie
                         | CustomObjective | UnknownObjective(text: string)

  datatype MetricName = L2 | Rmse | L1 | QuantileLoss | HuberLoss | FairLoss | PoissonLoss | BinaryLogloss | BinaryError
                      | Auc | AveragePrecision | AucMu | Ndcg | Map | MultiLogloss | MultiError | MultiRmse
                      | CrossEntropyLoss | CrossEntropyLambdaLoss | KullbackLeibler | MapeLoss | GammaLoss
                      | GammaDeviance | TweedieLoss | R2 | CustomMetric | UnknownMetric(text: string)

  /** A parameter key of a reset: not in the map, in the map with an empty text, or with a value. */
  datatype Key<T> = Absent | Blank | Given(value: T)

  /** boosting=goss is the legacy spelling of gbdt with GOSS sampling. */
  datatype BoostingName = Named(boosting: Boosting) | LegacyGoss

  /** Parameters of the Dataset that a reset must not change. */
  datatype DataKey = DataRandomSeed | MaxBin | MaxBinByFeature | BinConstructSampleCnt | MinDataInBin | UseMissing
                   | ZeroAsMissing | CategoricalFeature | FeaturePreFilter | IsEnableSparse | PrePartition
                   | EnableBundle | Header | TwoRound | LabelColumn | WeightColumn | GroupColumn | IgnoreColumn
                   | LinearTree | PreciseFloatParser

  datatype Config = Config(device: Device, boosting: Boosting, strategy: Strategy, objective: ObjectiveName,
                           metrics: seq<MetricName>, rfDeviceObjective: bool, numClass: int, forcedSplits: bool,
                           minDataInLeaf: int, data: DataKey -> int)

  datatype Params = Params(device: Key<Device>, boosting: Key<BoostingName>, strategy: Key<Strategy>,
                           objective: Key<ObjectiveName>, metric: Key<seq<MetricName>>, rfDeviceObjective: Key<bool>,
                           numClass: Key<int>, forcedSplits: Key<bool>, minDataInLeaf: Key<int>, seed: Key<int>,
                           forcedBins: bool, data: DataKey -> Key<int>)

  datatype Verdict = Accepted | ClassesDisagree | ForcedSplitsWithoutData | NumClassChanged | BoostingChanged
                   | MetricChanged | StrategyChanged | DatasetChanged

  function Or<T>(k: Key<T>, previous: T): T {
    if k.Given? then k.value else previous
  }

  function DefaultData(k: DataKey): int {
    match k
    case MaxBin => 255
    case BinConstructSampleCnt => 200000
    case MinDataInBin => 3
    case DataRandomSeed | UseMissing | FeaturePreFilter | IsEnableSparse | EnableBundle => 1
    case _ => 0
  }

  const DEFAULT := Config(Cpu, Gbdt, Bagging, Regression, [], true, 1, false, 20, DefaultData)

  // ---------------------------------------------------------------- Config::Set

  /** data_random_seed drawn from `seed`: the first Random::NextShort(0, 32767) of the 32-bit generator. */
  function DerivedSeed(seed: int): (r: int)
    ensures 0 <= r < 32767
  {
    (214013 * (seed % 0x1_0000_0000) + 2531011) % 0x1_0000_0000 / 65536 % 32768 % 32767
  }

  function MetricOf(o: ObjectiveName): MetricName {
    match o
    case Regression => L2
    case RegressionL1 => L1
    case Quantile => QuantileLoss
    case Huber => HuberLoss
    case Fair => FairLoss
    case Poisson => PoissonLoss
    case Binary => BinaryLogloss
    case Lambdarank | RankXendcg => Ndcg
    case MultiRegression => MultiRmse
    case Multiclass | MulticlassOva => MultiLogloss
    case CrossEntropy => CrossEntropyLoss
    case CrossEntropyLambda => CrossEntropyLambdaLoss
    case Mape => MapeLoss
    case Gamma => GammaLoss
    case Tweedie => TweedieLoss
    case CustomObjective => CustomMetric
    case UnknownObjective(text) => UnknownMetric(text)
  }

  /** A given metric text replaces the list; an empty list with no text takes the objective's metric. */
  function MetricsAfter(previous: seq<MetricName>, k: Key<seq<MetricName>>, objective: ObjectiveName): seq<MetricName> {
    var list := Or(k, previous);
    if list == [] && !k.Given? then [MetricOf(objective)] else list
  }

  /** Config::Set: only the keys of the map change, except for what an absent key resolves to. `autoCuda` tells
      whether an unset device becomes cuda. */
  function Set(c: Config, p: Params, autoCuda: bool): Config {
    var named := Or(p.boosting, Named(c.boosting));
    var objective := Or(p.objective, c.objective);
    Config(if p.device.Absent? && autoCuda then Cuda else Or(p.device, c.device),
           if named.LegacyGoss? then Gbdt else named.boosting,
           if named.LegacyGoss? then Goss else Or(p.strategy, c.strategy),
           objective, MetricsAfter(c.metrics, p.metric, objective), Or(p.rfDeviceObjective, c.rfDeviceObjective),
           Or(p.numClass, c.numClass), Or(p.forcedSplits, c.forcedSplits), Or(p.minDataInLeaf, c.minDataInLeaf),
           k => Or(p.data(k), if k == DataRandomSeed && p.seed.Given? then DerivedSeed(p.seed.value) else c.data(k)))
  }

  predicate ManyClasses(o: ObjectiveName, numClass: int) {
    o == Multiclass || o == MulticlassOva || o == MultiRegression || (o == CustomObjective && numClass > 1)
  }

  predicate ManyClassMetric(m: MetricName, numClass: int) {
    m == MultiLogloss || m == MultiError || m == MultiRmse || m == AucMu || (m == CustomMetric && numClass > 1)
  }

  /** What the class checks of Config::CheckParamConflict refuse, after all keys are set. */
  predicate ClassesConflict(c: Config) {
    if ManyClasses(c.objective, c.numClass)
    then c.numClass <= 1 || exists m | m in c.metrics :: !ManyClassMetric(m, c.numClass)
    else c.numClass != 1 || exists m | m in c.metrics :: ManyClassMetric(m, c.numClass)
  }

  // ---------------------------------------------------------------- the checks of a reset

  /** Booster::CheckDatasetResetConfig. */
  predicate DatasetAllows(c: Config, p: Params, n: Config) {
    && (p.device.Absent? || n.device == c.device || (n.device != Cuda && c.device != Cuda))
    && (forall k {:trigger p.data(k)} :: p.data(k).Absent? || n.data(k) == c.data(k))
    && !p.forcedBins
    && (p.minDataInLeaf.Absent? || n.minDataInLeaf >= c.minDataInLeaf || c.data(FeaturePreFilter) == 0)
  }

  /** The checks of Booster::ResetConfig, in order. They read a fresh configuration set from the reset keys alone, which
      must itself be free of conflicts. */
  function Check(c: Config, p: Params, hasData: bool, autoCuda: bool): Verdict {
    var n := Set(DEFAULT, p, autoCuda);
    if ClassesConflict(n) then ClassesDisagree
    else if !hasData && n.forcedSplits then ForcedSplitsWithoutData
    else if !p.numClass.Absent? && n.numClass != c.numClass then NumClassChanged
    else if !p.boosting.Absent? && n.boosting != c.boosting then BoostingChanged
    else if !p.metric.Absent? && n.metrics != c.metrics then MetricChanged
    else if (!p.strategy.Absent? || p.boosting == Given(LegacyGoss)) && n.strategy != c.strategy then StrategyChanged
    else if !DatasetAllows(c, p, n) then DatasetChanged
    else Accepted
  }

  /** A booster with training data carries its device into a reset that does not name one. */
  function Carried(c: Config, p: Params, hasData: bool): Params {
    if p.device.Absent? && hasData then p.(device := Given(c.device)) else p
  }

  function Judge(c: Config, p: Params, hasData: bool, autoCuda: bool): Verdict {
    Check(c, Carried(c, p, hasData), hasData, autoCuda)
  }

  /** The configuration an accepted reset puts in place. */
  function NewConfig(c: Config, p: Params, hasData: bool, autoCuda: bool): Config {
    Set(c, Carried(c, p, hasData), autoCuda)
  }

  // ---------------------------------------------------------------- what a reset does, key by key

  /** A given key is set, any other key stays. */
  ghost predicate Follows<T>(k: Key<T>, before: T, now: T) {
    match k
    case Given(value) => now == value
    case _ => now == before
  }

  /** The new configuration: every given key takes effect and every other one keeps its value, but for the legacy
      spelling, the default device, the metric of the objective and the seed derived from the master seed. */
  lemma KeysTakeEffect(c: Config, p: Params, hasData: bool, autoCuda: bool)
    ensures var n := NewConfig(c, p, hasData, autoCuda);
            && Follows(p.objective, c.objective, n.objective)
            && Follows(p.rfDeviceObjective, c.rfDeviceObjective, n.rfDeviceObjective)
            && Follows(p.numClass, c.numClass, n.numClass)
            && Follows(p.forcedSplits, c.forcedSplits, n.forcedSplits)
            && Follows(p.minDataInLeaf, c.minDataInLeaf, n.minDataInLeaf)
    ensures var n := NewConfig(c, p, hasData, autoCuda);
            if p.boosting == Given(LegacyGoss) then n.boosting == Gbdt && n.strategy == Goss
            else
              && Follows(p.strategy, c.strategy, n.strategy)
              && n.boosting == if p.boosting.Given? then p.boosting.value.boosting else c.boosting
    ensures var n := NewConfig(c, p, hasData, autoCuda);
            if p.device.Absent? && !hasData && autoCuda then n.device == Cuda else Follows(p.device, c.device, n.device)
    ensures var n := NewConfig(c, p, hasData, autoCuda);
            if !p.metric.Given? && c.metrics == [] then n.metrics == [MetricOf(n.objective)]
            else Follows(p.metric, c.metrics, n.metrics)
    ensures forall k :: Follows(p.data(k), if k == DataRandomSeed && p.seed.Given? then DerivedSeed(p.seed.value)
                                           else c.data(k), NewConfig(c, p, hasData, autoCuda).data(k))
  {
  }

  /** A key that must name the value the booster has: a blank one names the default. */
  ghost predicate Repeats<T>(k: Key<T>, byDefault: T, current: T) {
    match k
    case Absent => true
    case Blank => byDefault == current
    case Given(value) => value == current
  }

  /** The objective and the classes named by the keys alone go together. */
  ghost predicate KeysAgree(p: Params) {
    var o := if p.objective.Given? then p.objective.value else Regression;
    var classes := if p.numClass.Given? then p.numClass.value else 1;
    if o in {Multiclass, MulticlassOva, MultiRegression} || (o == CustomObjective && classes > 1)
    then classes > 1 && (p.metric.Given? ==> forall m | m in p.metric.value :: ManyClassMetric(m, classes))
    else classes == 1 && (p.metric.Given? ==> forall m | m in p.metric.value :: !ManyClassMetric(m, classes))
  }

  ghost predicate MetricRepeats(c: Config, p: Params) {
    Repeats(p.metric, [MetricOf(if p.objective.Given? then p.objective.value else Regression)], c.metrics)
  }

  ghost predicate BoostingRepeats(c: Config, p: Params) {
    match p.boosting
    case Absent => true
    case Given(Named(b)) => b == c.boosting
    case _ => c.boosting == Gbdt
  }

  ghost predicate StrategyRepeats(c: Config, p: Params) {
    if p.boosting == Given(LegacyGoss) then c.strategy == Goss else Repeats(p.strategy, Bagging, c.strategy)
  }

  /** The device may change between the host and OpenCL. */
  ghost predicate DeviceStays(c: Config, p: Params) {
    match p.device
    case Absent => true
    case Blank => c.device != Cuda
    case Given(d) => d == Cuda <==> c.device == Cuda
  }

  ghost predicate DataRepeats(c: Config, p: Params) {
    forall k {:trigger p.data(k)} ::
      Repeats(p.data(k), if k == DataRandomSeed && p.seed.Given? then DerivedSeed(p.seed.value) else DefaultData(k),
              c.data(k))
  }

  /** Smaller leaves only without the feature prefilter. */
  ghost predicate LeavesAllowed(c: Config, p: Params) {
    c.data(FeaturePreFilter) == 0 || match p.minDataInLeaf
                                     case Absent => true
                                     case Blank => c.minDataInLeaf <= 20
                                     case Given(n) => c.minDataInLeaf <= n
  }

  /** The default metric of an objective is one for as many classes. */
  lemma DefaultMetricFits(o: ObjectiveName, classes: int)
    ensures ManyClassMetric(MetricOf(o), classes) <==> ManyClasses(o, classes)
  {
  }

  /** Only the two ranking and the two softmax objectives share a default metric. */
  lemma DefaultMetricTells(o: ObjectiveName, q: ObjectiveName)
    requires MetricOf(o) == MetricOf(q) && o != q
    ensures {o, q} == {Lambdarank, RankXendcg} || {o, q} == {Multiclass, MulticlassOva}
  {
  }

  lemma KeysAgreeIff(p: Params, autoCuda: bool)
    ensures KeysAgree(p) <==> !ClassesConflict(Set(DEFAULT, p, autoCuda))
  {
    var n := Set(DEFAULT, p, autoCuda);
    if !p.metric.Given? {
      DefaultMetricFits(n.objective, n.numClass);
      assert n.metrics == [MetricOf(n.objective)];
    }
  }

  /** The verdict of a reset on a booster, from its configuration and the keys alone: the first rule broken. */
  lemma VerdictIs(c: Config, p: Params, hasData: bool, autoCuda: bool)
    ensures Judge(c, p, hasData, autoCuda) ==
              if !KeysAgree(p) then ClassesDisagree
              else if !hasData && p.forcedSplits == Given(true) then ForcedSplitsWithoutData
              else if !Repeats(p.numClass, 1, c.numClass) then NumClassChanged
              else if !BoostingRepeats(c, p) then BoostingChanged
              else if !MetricRepeats(c, p) then MetricChanged
              else if !StrategyRepeats(c, p) then StrategyChanged
              else if !DeviceStays(c, p) || !DataRepeats(c, p) || p.forcedBins || !LeavesAllowed(c, p)
              then DatasetChanged
              else Accepted
  {
    KeysAgreeIff(Carried(c, p, hasData), autoCuda);
    DatasetRule(c, p, hasData, autoCuda);
  }

  lemma DatasetRule(c: Config, p: Params, hasData: bool, autoCuda: bool)
    ensures var q := Carried(c, p, hasData);
            DatasetAllows(c, q, Set(DEFAULT, q, autoCuda))
            <==> DeviceStays(c, p) && DataRepeats(c, p) && !p.forcedBins && LeavesAllowed(c, p)
  {
    var q := Carried(c, p, hasData);
    var n := Set(DEFAULT, q, autoCuda);
    assert forall k {:trigger p.data(k)} :: q.data(k) == p.data(k);
    assert forall k {:trigger p.data(k)} ::
        (q.data(k).Absent? || n.data(k) == c.data(k))
        <==> Repeats(p.data(k), if k == DataRandomSeed && p.seed.Given? then DerivedSeed(p.seed.value)
                                else DefaultData(k), c.data(k));
  }

  /** Three refusals: forced splits without training data, forced bins, and smaller leaves under the prefilter. */
  lemma Refused(c: Config, p: Params, hasData: bool, autoCuda: bool)
    requires || (!hasData && p.forcedSplits == Given(true))
             || p.forcedBins
             || (c.data(FeaturePreFilter) != 0 && p.minDataInLeaf.Given? && p.minDataInLeaf.value < c.minDataInLeaf)
    ensures Judge(c, p, hasData, autoCuda) != Accepted
  {
    VerdictIs(c, p, hasData, autoCuda);
  }

  /** What every accepted reset of a booster with training data keeps, although the checks compare against a fresh
      configuration and the reset changes the old one. */
  lemma AcceptedKeeps(c: Config, p: Params, autoCuda: bool)
    requires Judge(c, p, true, autoCuda) == Accepted
    ensures var n := NewConfig(c, p, true, autoCuda);
            && n.boosting == c.boosting && n.strategy == c.strategy && n.numClass == c.numClass
            && (n.device == Cuda <==> c.device == Cuda)
            && (c.metrics != [] ==> n.metrics == c.metrics)
            && (p.objective.Absent? ==> n.objective == c.objective)
            && (forall k :: k != DataRandomSeed ==> n.data(k) == c.data(k))
            && (c.data(FeaturePreFilter) != 0 ==> n.minDataInLeaf >= c.minDataInLeaf)
  {
  }

  /** data_random_seed survives an accepted reset exactly when the reset names it, gives no master seed, or gives one
      that derives the same value: the check looks at the data_random_seed key only. */
  lemma RandomSeedKeptIff(c: Config, p: Params, autoCuda: bool)
    requires Judge(c, p, true, autoCuda) == Accepted
    ensures NewConfig(c, p, true, autoCuda).data(DataRandomSeed) == c.data(DataRandomSeed)
            <==> p.data(DataRandomSeed).Given? || !p.seed.Given? || DerivedSeed(p.seed.value) == c.data(DataRandomSeed)
  {
  }

  /** The new configuration of an accepted reset is refused, with all its keys set, exactly when its objective crosses
      between one class and several: neither check compares the objectives. */
  lemma ConflictIff(c: Config, p: Params, autoCuda: bool)
    requires Judge(c, p, true, autoCuda) == Accepted && !ClassesConflict(c)
    ensures var n := NewConfig(c, p, true, autoCuda);
            ClassesConflict(n) <==> ManyClasses(n.objective, n.numClass) != ManyClasses(c.objective, c.numClass)
  {
    AcceptedKeeps(c, p, autoCuda);
    var n := NewConfig(c, p, true, autoCuda);
    if c.metrics != [] {
      assert n.metrics[0] in n.metrics;
    }
  }

  const NO_KEYS := Params(Absent, Absent, Absent, Absent, Absent, Absent, Absent, Absent, Absent, Absent, false,
                          k => Absent)

  /** A three-class booster accepts a reset of objective=regression, and its configuration is then left in conflict. */
  lemma ClassCrossing()
    ensures var c := Set(DEFAULT, NO_KEYS.(objective := Given(Multiclass), numClass := Given(3)), false);
            var p := NO_KEYS.(objective := Given(Regression));
            && !ClassesConflict(c) && Judge(c, p, true, false) == Accepted
            && ClassesConflict(NewConfig(c, p, true, false))
  {
  }

  /** A reset of seed=1 on a default booster is accepted and changes data_random_seed from 1 to 41. */
  lemma SeedChangesDataSeed()
    ensures var p := NO_KEYS.(seed := Given(1));
            var c := Set(DEFAULT, NO_KEYS, false);
            && Judge(c, p, true, false) == Accepted
            && NewConfig(c, p, true, false).data(DataRandomSeed) == 41 != c.data(DataRandomSeed)
  {
    assert DerivedSeed(1) == 41;
    SeedAccepted(NO_KEYS.(seed := Given(1)), Set(DEFAULT, NO_KEYS, false));
  }

  lemma SeedAccepted(p: Params, c: Config)
    requires p == NO_KEYS.(seed := Given(1)) && c == Set(DEFAULT, NO_KEYS, false)
    ensures Judge(c, p, true, false) == Accepted
  {
  }

  /** A reset that names the documented defaults of the dataset keys is accepted on a default booster. */
  lemma DefaultsNamed(p: Params)
    requires p == NO_KEYS.(data := p.data)
    requires p.data(MaxBin) == Given(255) && p.data(BinConstructSampleCnt) == Given(200000)
    requires p.data(MinDataInBin) == Given(3)
    requires forall k | k in {DataRandomSeed, UseMissing, FeaturePreFilter, IsEnableSparse, EnableBundle} ::
               p.data(k) == Given(1)
    requires forall k | k !in {MaxBin, BinConstructSampleCnt, MinDataInBin, DataRandomSeed, UseMissing,
                               FeaturePreFilter, IsEnableSparse, EnableBundle} :: p.data(k) == Given(0)
    ensures Judge(Set(DEFAULT, NO_KEYS, false), p, true, false) == Accepted
  {
    VerdictIs(Set(DEFAULT, NO_KEYS, false), p, true, false);
  }

  // ---------------------------------------------------------------- the factories

  /** The objectives with a CUDA class. */
  predicate HasCudaObjective(o: ObjectiveName) {
    match o
    case Regression | RegressionL1 | Quantile | Huber | Fair | Poisson | Binary | Lambdarank | RankXendcg
       | MultiRegression | Multiclass | MulticlassOva => true
    case _ => false
  }

  predicate RfBoostsOnDevice(c: Config) {
    c.boosting == Rf && c.device == Cuda && c.strategy != Goss && HasCudaObjective(c.objective) && c.rfDeviceObjective
  }

  /** Where the metric factory builds. */
  predicate BoostsOnDevice(c: Config) {
    if c.device != Cuda || c.strategy == Goss || !HasCudaObjective(c.objective) then false
    else c.boosting == Gbdt || RfBoostsOnDevice(c)
  }

  /** Where the objective factory builds: the CUDA table falls back to a host class for objectives without a kernel. */
  predicate ObjectiveOnDevice(c: Config) {
    && c.device == Cuda && c.strategy != Goss && (c.boosting != Rf || RfBoostsOnDevice(c))
    && HasCudaObjective(c.objective)
  }

  /** The metrics with a CUDA class; for the others the factory falls back to the host class. */
  predicate HasCudaMetric(m: MetricName) {
    match m
    case L2 | Rmse | L1 | QuantileLoss | HuberLoss | FairLoss | PoissonLoss | BinaryLogloss | BinaryError | MapeLoss
       | GammaLoss | GammaDeviance | TweedieLoss => true
    case _ => false
  }

  predicate MetricOnDevice(c: Config, m: MetricName) {
    BoostsOnDevice(c) && HasCudaMetric(m)
  }

  /** An objective gets its CUDA class on a cuda booster that bags, if it has one; in a forest the plan must say so. */
  lemma ObjectiveOnDeviceIff(c: Config)
    ensures ObjectiveOnDevice(c) <==>
              && c.device == Cuda && c.strategy == Bagging && HasCudaObjective(c.objective)
              && (c.boosting == Rf ==> c.rfDeviceObjective)
  {
  }

  /** The objectives with a CUDA class are those whose default metric has one, without mape, gamma and tweedie, and the
      ranking ones and those of several classes, whose default metric has none. */
  lemma CudaDefaultMetric(o: ObjectiveName)
    ensures HasCudaObjective(o) <==>
              || (HasCudaMetric(MetricOf(o)) && o !in {Mape, Gamma, Tweedie})
              || o in {Lambdarank, RankXendcg, Multiclass, MulticlassOva, MultiRegression}
    ensures o in {Lambdarank, RankXendcg, Multiclass, MulticlassOva, MultiRegression} ==> !HasCudaMetric(MetricOf(o))
  {
  }

  /** A metric gets its CUDA class exactly beside a CUDA objective, if it has one and the booster is not dart. */
  lemma FactoriesAgree(c: Config, m: MetricName)
    ensures MetricOnDevice(c, m) <==> ObjectiveOnDevice(c) && c.boosting != Dart && HasCudaMetric(m)
  {
  }

  /** A forest that boosts on the device if its plan says so. */
  predicate PlanDecides(c: Config) {
    c.boosting == Rf && c.device == Cuda && c.strategy != Goss && HasCudaObjective(c.objective)
  }

  predicate PlanSwitchedOn(c: Config, n: Config) {
    PlanDecides(c) && !c.rfDeviceObjective && n.rfDeviceObjective
  }

  predicate PlanSwitchedOff(c: Config, n: Config) {
    PlanDecides(c) && c.rfDeviceObjective && !n.rfDeviceObjective
  }

  /** An accepted reset without an objective key moves the factories to the device or to the host exactly when it
      switches the plan of such a forest: no check compares the plan. */
  lemma PlacementMovesIff(c: Config, p: Params, autoCuda: bool)
    requires Judge(c, p, true, autoCuda) == Accepted && p.objective.Absent?
    ensures var n := NewConfig(c, p, true, autoCuda);
            && (!BoostsOnDevice(c) && BoostsOnDevice(n) <==> PlanSwitchedOn(c, n))
            && (BoostsOnDevice(c) && !BoostsOnDevice(n) <==> PlanSwitchedOff(c, n))
            && (!ObjectiveOnDevice(c) && ObjectiveOnDevice(n) <==> PlanSwitchedOn(c, n))
            && (ObjectiveOnDevice(c) && !ObjectiveOnDevice(n) <==> PlanSwitchedOff(c, n))
  {
    AcceptedKeeps(c, p, autoCuda);
  }

  predicate IsKnown(m: MetricName) {
    !m.CustomMetric? && !m.UnknownMetric?
  }

  /** A default metric is known to the factory unless its objective is custom or unknown. */
  lemma DefaultMetricKnown(o: ObjectiveName)
    ensures IsKnown(MetricOf(o)) <==> o != CustomObjective && !o.UnknownObjective?
    ensures forall m :: HasCudaMetric(m) ==> IsKnown(m)
    ensures forall m :: IsKnown(m) <==> m != CustomMetric && forall text :: m != UnknownMetric(text)
  {
  }

  /** The metrics the factory knows; the others are skipped. */
  function Known(names: seq<MetricName>): (r: seq<MetricName>)
    ensures |r| <= |names|
  {
    if names == [] then []
    else
      var rest, last := Known(names[..|names| - 1]), names[|names| - 1];
      if IsKnown(last) then rest + [last] else rest
  }

  lemma {:induction false} KnownHas(names: seq<MetricName>, m: MetricName)
    ensures m in Known(names) <==> m in names && IsKnown(m)
  {
    if names != [] {
      var front, last := names[..|names| - 1], names[|names| - 1];
      KnownHas(front, m);
      assert names == front + [last];
    }
  }
}
