/** The objects a booster builds, and the sets of objects GBDT may follow. An object is named by its address, which
    is never reused, so a pointer to it can be told apart from a pointer to its replacement. */
module BoosterParts {
  import opened BoosterConfig
  import opened Options

  datatype Kind = ObjectiveKind | MetricKind(name: MetricName, dataset: nat)
  datatype Object = Object(address: nat, kind: Kind, onDevice: bool)

  /** An objective (none for a custom one), the training metrics, and the metrics of every validation set: what the
      booster owns, what a reset builds, and what GBDT points to. */
  datatype Parts = Parts(objective: Option<Object>, train: seq<Object>, valid: seq<seq<Object>>)

  ghost function OptionSet(o: Option<Object>): set<Object> {
    if o.None? then {} else {o.value}
  }

  ghost function SeqSet(s: seq<Object>): set<Object> {
    set o | o in s
  }

  ghost function ListsSet(lists: seq<seq<Object>>): set<Object> {
    set l, o | l in lists && o in l :: o
  }

  ghost function All(parts: Parts): set<Object> {
    OptionSet(parts.objective) + SeqSet(parts.train) + ListsSet(parts.valid)
  }

  /** The list with the new object, if there is one. */
  function Appended(ms: seq<Object>, m: Option<Object>): seq<Object> {
    if m.None? then ms else ms + [m.value]
  }

  lemma SeqSetNext(ms: seq<Object>, m: Option<Object>)
    ensures SeqSet(Appended(ms, m)) == SeqSet(ms) + OptionSet(m)
  {
  }

  lemma ListsSetHas(lists: seq<seq<Object>>, i: nat)
    requires i < |lists|
    ensures SeqSet(lists[i]) <= ListsSet(lists)
  {
  }

  /** Replacing one list reaches nothing beyond the old lists and the new list. */
  lemma ListsSetUpdate(lists: seq<seq<Object>>, i: nat, s: seq<Object>)
    requires i < |lists|
    ensures ListsSet(lists[i := s]) <= ListsSet(lists) + SeqSet(s)
  {
  }

  lemma ListsSetAppend(lists: seq<seq<Object>>, s: seq<Object>)
    ensures ListsSet(lists + [s]) == ListsSet(lists) + SeqSet(s)
  {
  }

  // ---------------------------------------------------------------- allocation

  /** Addresses from lo up to hi. */
  ghost predicate Within(s: set<Object>, lo: nat, hi: nat) {
    forall o | o in s :: lo <= o.address < hi
  }

  /** The objects `s` were allocated since `live0`, `next0`, and nothing else changed. */
  ghost predicate Grown(live0: set<Object>, next0: nat, live: set<Object>, next: nat, s: set<Object>) {
    live == live0 + s && next0 <= next && Within(s, next0, next)
  }

  lemma GrownStep(live0: set<Object>, next0: nat, live1: set<Object>, next1: nat, s: set<Object>,
                  live2: set<Object>, next2: nat, t: set<Object>)
    requires Grown(live0, next0, live1, next1, s) && Grown(live1, next1, live2, next2, t)
    ensures Grown(live0, next0, live2, next2, s + t)
  {
  }

  /** Destroying what was allocated restores the live set. */
  lemma GrownUndo(live0: set<Object>, next0: nat, live: set<Object>, next: nat, s: set<Object>)
    requires Grown(live0, next0, live, next, s) && Within(live0, 0, next0)
    ensures live - s == live0
  {
  }

  /** No object is owned twice. */
  ghost predicate Apart(parts: Parts) {
    && OptionSet(parts.objective) !! SeqSet(parts.train) + ListsSet(parts.valid)
    && SeqSet(parts.train) !! ListsSet(parts.valid)
  }

  // ---------------------------------------------------------------- what was built from which configuration

  /** The metrics of the configured names on one dataset. `onDevice` tells whether the factory gives the CUDA class to
      the metrics that have one. */
  ghost predicate MetricsFor(ms: seq<Object>, names: seq<MetricName>, dataset: nat, onDevice: bool) {
    && |ms| == |Known(names)|
    && forall i {:trigger ms[i]} | 0 <= i < |ms| ::
         && ms[i].kind == MetricKind(Known(names)[i], dataset)
         && (ms[i].onDevice <==> onDevice && HasCudaMetric(Known(names)[i]))
  }

  /** One more configured name: its metric, if the factory knows it. */
  lemma MetricsForStep(ms: seq<Object>, names: seq<MetricName>, i: nat, dataset: nat, onDevice: bool, m: Option<Object>)
    requires i < |names| && MetricsFor(ms, names[..i], dataset, onDevice)
    requires m.None? <==> !IsKnown(names[i])
    requires m.Some? ==> m.value.kind == MetricKind(names[i], dataset)
    requires m.Some? ==> (m.value.onDevice <==> onDevice && HasCudaMetric(names[i]))
    ensures MetricsFor(Appended(ms, m), names[..i + 1], dataset, onDevice)
  {
    assert names[..i + 1][..i] == names[..i];
  }

  ghost predicate ObjectiveFor(o: Option<Object>, c: Config) {
    && (o.None? <==> c.objective == CustomObjective)
    && (o.Some? ==> o.value.kind == ObjectiveKind && o.value.onDevice == ObjectiveOnDevice(c))
  }

  /** One metric list per validation set. */
  ghost predicate ListsFor(lists: seq<seq<Object>>, c: Config, valid: seq<nat>) {
    && |lists| == |valid|
    && forall i {:trigger lists[i]} | 0 <= i < |lists| :: MetricsFor(lists[i], c.metrics, valid[i], BoostsOnDevice(c))
  }

  lemma ListsForStep(lists: seq<seq<Object>>, c: Config, valid: seq<nat>, i: nat, ms: seq<Object>)
    requires i < |valid| && ListsFor(lists, c, valid[..i]) && MetricsFor(ms, c.metrics, valid[i], BoostsOnDevice(c))
    ensures ListsFor(lists + [ms], c, valid[..i + 1])
  {
  }

  /** All objects built from one configuration. */
  ghost predicate BuiltFrom(parts: Parts, c: Config, train: nat, valid: seq<nat>) {
    && ObjectiveFor(parts.objective, c)
    && MetricsFor(parts.train, c.metrics, train, BoostsOnDevice(c))
    && ListsFor(parts.valid, c, valid)
  }

  // ---------------------------------------------------------------- what fails to build

  ghost predicate MetricsFail(names: seq<MetricName>, dataset: nat, fails: Kind -> bool) {
    exists i {:trigger names[i]} | 0 <= i < |names| :: IsKnown(names[i]) && fails(MetricKind(names[i], dataset))
  }

  lemma MetricsFailStep(names: seq<MetricName>, i: nat, dataset: nat, fails: Kind -> bool)
    requires i < |names| && !MetricsFail(names[..i], dataset, fails)
    ensures MetricsFail(names[..i + 1], dataset, fails) <==> IsKnown(names[i]) && fails(MetricKind(names[i], dataset))
    ensures MetricsFail(names[..i + 1], dataset, fails) ==> MetricsFail(names, dataset, fails)
  {
  }

  ghost predicate ListsFail(names: seq<MetricName>, valid: seq<nat>, fails: Kind -> bool) {
    exists i {:trigger valid[i]} | 0 <= i < |valid| :: MetricsFail(names, valid[i], fails)
  }

  ghost predicate ObjectiveFails(c: Config, fails: Kind -> bool) {
    c.objective.UnknownObjective? || (c.objective != CustomObjective && fails(ObjectiveKind))
  }

  /** Some object that the configuration calls for does not exist or does not initialize. */
  ghost predicate BuildFails(c: Config, train: nat, valid: seq<nat>, fails: Kind -> bool) {
    ObjectiveFails(c, fails) || MetricsFail(c.metrics, train, fails) || ListsFail(c.metrics, valid, fails)
  }

  const NO_FAILURE: Kind -> bool := (k: Kind) => false

  // ---------------------------------------------------------------- host or device

  predicate DeviceObjective(o: Option<Object>) {
    o.Some? && o.value.onDevice
  }

  predicate AnyOnDevice(ms: seq<Object>) {
    exists i {:trigger ms[i]} | 0 <= i < |ms| :: ms[i].onDevice
  }

  predicate AnyListOnDevice(lists: seq<seq<Object>>) {
    exists i {:trigger lists[i]} | 0 <= i < |lists| :: AnyOnDevice(lists[i])
  }

  /** Every device metric stands beside a device objective, through which alone it converts the scores. Host metrics
      stand beside either. */
  ghost predicate PartsAgree(parts: Parts) {
    AnyOnDevice(parts.train) || AnyListOnDevice(parts.valid) ==> DeviceObjective(parts.objective)
  }

  /** Metrics built now would have their device objective. */
  ghost predicate MetricsReady(parts: Parts, c: Config) {
    BoostsOnDevice(c) ==> DeviceObjective(parts.objective)
  }

  /** An objective built now would serve the validation metrics that stay. */
  ghost predicate ObjectiveReady(parts: Parts, c: Config) {
    AnyListOnDevice(parts.valid) ==> ObjectiveOnDevice(c)
  }

  /** Whatever is built next will agree with what stays. */
  ghost predicate Ready(parts: Parts, c: Config) {
    MetricsReady(parts, c) && ObjectiveReady(parts, c)
  }

  ghost predicate NamesCuda(names: seq<MetricName>) {
    exists m | m in names :: HasCudaMetric(m)
  }

  /** A metric list holds a device metric exactly when the factory builds on the device and one of its names has a CUDA
      class. */
  lemma ListOnDeviceIff(ms: seq<Object>, names: seq<MetricName>, dataset: nat, onDevice: bool)
    requires MetricsFor(ms, names, dataset, onDevice)
    ensures AnyOnDevice(ms) <==> onDevice && NamesCuda(names)
  {
    if onDevice && NamesCuda(names) {
      var m :| m in names && HasCudaMetric(m);
      KnownHas(names, m);
      var i :| 0 <= i < |Known(names)| && Known(names)[i] == m;
      assert ms[i].onDevice;
    } else if AnyOnDevice(ms) {
      var i :| 0 <= i < |ms| && ms[i].onDevice;
      KnownHas(names, Known(names)[i]);
    }
  }

  /** Objects built from one configuration agree, and so will those built later. */
  lemma BuiltTogetherAgree(parts: Parts, c: Config, train: nat, valid: seq<nat>)
    requires BuiltFrom(parts, c, train, valid)
    ensures PartsAgree(parts) && Ready(parts, c)
  {
  }

  lemma AppendedOnDevice(lists: seq<seq<Object>>, ms: seq<Object>)
    ensures AnyListOnDevice(lists + [ms]) <==> AnyListOnDevice(lists) || AnyOnDevice(ms)
  {
    var more := lists + [ms];
    assert more[|lists|] == ms;
    if AnyListOnDevice(lists) {
      var i :| 0 <= i < |lists| && AnyOnDevice(lists[i]);
      assert AnyOnDevice(more[i]);
    }
  }

  /** One more metric list agrees with the rest exactly when its device metrics have their objective, or it has none;
      what comes after it stays ready. */
  lemma AppendAgrees(parts: Parts, c: Config, ms: seq<Object>, dataset: nat)
    requires PartsAgree(parts) && MetricsFor(ms, c.metrics, dataset, BoostsOnDevice(c))
    ensures PartsAgree(parts.(valid := parts.valid + [ms])) <==> MetricsReady(parts, c) || !NamesCuda(c.metrics)
    ensures Ready(parts, c) ==> Ready(parts.(valid := parts.valid + [ms]), c)
  {
    ListOnDeviceIff(ms, c.metrics, dataset, BoostsOnDevice(c));
    AppendedOnDevice(parts.valid, ms);
  }

  /** A new objective and new training metrics agree with the validation metrics that stay exactly when those have none
      on the device or the new objective is there; afterwards everything is ready if they agree. */
  lemma RetrainAgrees(parts: Parts, c: Config, train: nat, valid: seq<seq<Object>>)
    requires parts.valid == valid && ObjectiveFor(parts.objective, c)
    requires MetricsFor(parts.train, c.metrics, train, BoostsOnDevice(c))
    ensures PartsAgree(parts) <==> (AnyListOnDevice(valid) ==> ObjectiveOnDevice(c))
    ensures Ready(parts, c) <==> PartsAgree(parts)
  {
  }

  // ---------------------------------------------------------------- a refusal after the pointers were taken

  /** GBDT refuses late exactly here: a forest given a custom objective, or a validation set whose metric count
      changes. */
  ghost predicate LateCause(c: Config, valid: seq<seq<Object>>) {
    || (c.boosting == Rf && c.objective == CustomObjective)
    || exists i {:trigger valid[i]} | 0 <= i < |valid| :: |valid[i]| != |Known(c.metrics)|
  }

  ghost predicate SameCounts(a: seq<seq<Object>>, b: seq<seq<Object>>) {
    |a| == |b| && forall i {:trigger a[i]} | 0 <= i < |a| :: |a[i]| == |b[i]|
  }

  ghost predicate RefusedLate(parts: Parts, before: seq<seq<Object>>, boosting: Boosting) {
    !SameCounts(parts.valid, before) || (boosting == Rf && parts.objective.None?)
  }

  /** How many objects the configuration calls for: at most one objective, and known metrics per data set. */
  ghost predicate CountsAs(parts: Parts, c: Config) {
    && (parts.objective.None? <==> c.objective == CustomObjective)
    && |parts.train| == |Known(c.metrics)|
    && (Known(c.metrics) == [] ==> ListsSet(parts.valid) == {})
  }

  /** What GBDT refuses late, in terms of the configuration the objects were built from. */
  lemma CountsDecide(parts: Parts, c: Config, train: nat, valid: seq<nat>, before: seq<seq<Object>>)
    requires BuiltFrom(parts, c, train, valid) && |valid| == |before|
    ensures CountsAs(parts, c) && (LateCause(c, before) <==> RefusedLate(parts, before, c.boosting))
  {
    forall i {:trigger parts.valid[i]} | 0 <= i < |parts.valid|
      ensures |parts.valid[i]| == |Known(c.metrics)|
    {
      assert MetricsFor(parts.valid[i], c.metrics, valid[i], BoostsOnDevice(c));
    }
    if SameCounts(parts.valid, before) {
      forall i | 0 <= i < |before|
        ensures |before[i]| == |Known(c.metrics)|
      {
        assert |parts.valid[i]| == |before[i]|;
      }
    } else {
      var i :| 0 <= i < |before| && |parts.valid[i]| != |before[i]|;
      assert |before[i]| != |Known(c.metrics)|;
    }
  }

  /** GBDT has taken the new objective and training metrics, and some of the new validation metrics. */
  ghost predicate Took(g: Parts, parts: Parts, live: set<Object>) {
    && g.objective == parts.objective && g.train == parts.train
    && ListsSet(g.valid) <= live + ListsSet(parts.valid)
  }

  /** When the new objects die, GBDT dangles exactly if it took any object at all. */
  lemma BrokenDangles(parts: Parts, c: Config, g: Parts, live: set<Object>)
    requires CountsAs(parts, c) && live !! All(parts) && Took(g, parts, live)
    ensures !(All(g) <= live) <==> c.objective != CustomObjective || Known(c.metrics) != []
  {
    if c.objective != CustomObjective {
      assert g.objective.value in All(parts) && g.objective.value in All(g);
    } else if Known(c.metrics) != [] {
      assert g.train[0] in All(parts) && g.train[0] in All(g);
    }
  }
}
