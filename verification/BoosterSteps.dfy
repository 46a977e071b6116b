/** A booster as a state machine: the values that decide what its operations do, and the steps between them. */
module BoosterSteps {
  import opened BoosterConfig
  import opened BoosterParts
  import opened Options

  datatype State = State(config: Config, trainData: Option<nat>, validData: seq<nat>, owned: Parts)

  /** What the code outside the model decides during one reset: whether a key does not parse or conflicts with another
      one, in the reset alone or in the whole configuration; which objects fail to initialize; and whether GBDT refuses
      the new objective before taking it, or its own new configuration. */
  datatype Env = Env(unreadable: bool, otherConflict: bool, fails: Kind -> bool, refusesObjective: bool,
                     refusesConfig: bool)

  /** How a reset ends. HandoverBroken is a refusal by GBDT after it has taken pointers to objects that then die. */
  datatype ResetStatus = Unreadable | Rejected(why: Verdict) | SetRefused | NoTrainingData | BuildFailed
                       | HandoverRefused | HandoverBroken | ConfigRefused | Done

  /** The reset went through; GBDT may still have refused the rest of the configuration. */
  predicate Committed(s: ResetStatus) {
    s.Done? || s.ConfigRefused?
  }

  /** The configuration is still the old one. */
  predicate Untouched(s: ResetStatus) {
    s.Unreadable? || s.Rejected?
  }

  predicate KnownObjective(o: ObjectiveName) {
    !o.UnknownObjective?
  }

  ghost function Verdicts(s: State, p: Params, autoCuda: bool): Verdict {
    Judge(s.config, p, s.trainData.Some?, autoCuda)
  }

  ghost function Next(s: State, p: Params, autoCuda: bool): Config {
    NewConfig(s.config, p, s.trainData.Some?, autoCuda)
  }

  /** The outcome of a rebuild from the configuration `n`. */
  ghost function RebuildOutcome(n: Config, train: nat, valid: seq<nat>, before: seq<seq<Object>>, env: Env): ResetStatus
  {
    if BuildFails(n, train, valid, env.fails) then BuildFailed
    else if env.refusesObjective then HandoverRefused
    else if LateCause(n, before) then HandoverBroken
    else Done
  }

  /** The outcome of what follows the new configuration. */
  ghost function InstallOutcome(s: State, p: Params, env: Env): ResetStatus {
    if !p.objective.Absent? && s.trainData.None? then NoTrainingData
    else
      var r := if p.objective.Absent? then Done
               else RebuildOutcome(s.config, s.trainData.value, s.validData, s.owned.valid, env);
      if r.Done? && env.refusesConfig then ConfigRefused else r
  }

  /** The outcome of the checks and of the new configuration; Done means that the reset goes on. */
  ghost function SetOutcome(s: State, p: Params, autoCuda: bool, env: Env): ResetStatus {
    if env.unreadable then Unreadable
    else if Verdicts(s, p, autoCuda) != Accepted then Rejected(Verdicts(s, p, autoCuda))
    else if env.otherConflict || ClassesConflict(Next(s, p, autoCuda)) then SetRefused
    else Done
  }

  /** The outcome of every reset, decided by the configurations, the metric counts and the environment. */
  ghost function Outcome(s: State, p: Params, autoCuda: bool, env: Env): ResetStatus {
    var r := SetOutcome(s, p, autoCuda, env);
    if r.Done? then InstallOutcome(s.(config := Next(s, p, autoCuda)), p, env) else r
  }

  // ---------------------------------------------------------------- steps

  /** The configuration changes unless the reset is refused at once; the objects change exactly when a reset with an
      objective key commits, and are then all built from the new configuration. */
  ghost predicate ResetStep(s: State, p: Params, autoCuda: bool, env: Env, t: State) {
    var r := Outcome(s, p, autoCuda, env);
    && t.trainData == s.trainData && t.validData == s.validData
    && t.config == (if Untouched(r) then s.config else Next(s, p, autoCuda))
    && if Committed(r) && !p.objective.Absent?
       then BuiltFrom(t.owned, t.config, s.trainData.value, s.validData)
       else t.owned == s.owned
  }

  /** The two halves of a reset, one after the other. */
  lemma ResetComposes(s: State, p: Params, autoCuda: bool, env: Env, first: ResetStatus, t: State, r: ResetStatus)
    requires first == SetOutcome(s, p, autoCuda, env) && t.trainData == s.trainData && t.validData == s.validData
    requires t.config == if Untouched(first) then s.config else Next(s, p, autoCuda)
    requires r == if first.Done? then InstallOutcome(s.(config := t.config), p, env) else first
    requires if first.Done? && Committed(r) && !p.objective.Absent?
             then BuiltFrom(t.owned, t.config, s.trainData.value, s.validData)
             else t.owned == s.owned
    ensures r == Outcome(s, p, autoCuda, env) && ResetStep(s, p, autoCuda, env, t)
  {
  }

  ghost predicate AddValidStep(s: State, dataset: nat, t: State) {
    && t == s.(validData := s.validData + [dataset], owned := t.owned)
    && |t.owned.valid| == |s.owned.valid| + 1
    && t.owned == s.owned.(valid := s.owned.valid + [t.owned.valid[|s.owned.valid|]])
    && MetricsFor(t.owned.valid[|s.owned.valid|], s.config.metrics, dataset, BoostsOnDevice(s.config))
  }

  ghost predicate RetrainStep(s: State, dataset: nat, t: State) {
    if s.trainData == Some(dataset) then t == s
    else
      && t == s.(trainData := Some(dataset), owned := t.owned) && t.owned.valid == s.owned.valid
      && ObjectiveFor(t.owned.objective, s.config)
      && MetricsFor(t.owned.train, s.config.metrics, dataset, BoostsOnDevice(s.config))
  }

  datatype Op = Reset(p: Params, env: Env) | AddValid(dataset: nat) | ResetTrain(dataset: nat)

  ghost predicate Step(s: State, op: Op, autoCuda: bool, t: State) {
    match op
    case Reset(p, env) => ResetStep(s, p, autoCuda, env, t)
    case AddValid(dataset) => AddValidStep(s, dataset, t)
    case ResetTrain(dataset) => RetrainStep(s, dataset, t)
  }

  // ---------------------------------------------------------------- what every step keeps

  /** Every device metric beside a device objective, now and after the next build. */
  ghost predicate Good(s: State) {
    && s.trainData.Some? && KnownObjective(s.config.objective)
    && !(s.config.boosting == Rf && s.config.objective == CustomObjective)
    && PartsAgree(s.owned) && Ready(s.owned, s.config)
  }

  /** Switching the forest plan without rebuilding does harm: on, beside a host objective, or off, beside device metrics
      of a validation set. */
  predicate HarmfulSwitch(parts: Parts, c: Config, n: Config) {
    || (PlanSwitchedOn(c, n) && !DeviceObjective(parts.objective))
    || (PlanSwitchedOff(c, n) && AnyListOnDevice(parts.valid))
  }

  /** An accepted reset without an objective key keeps a booster ready exactly when it makes no harmful switch. */
  lemma ReadyKeptIff(parts: Parts, c: Config, p: Params, autoCuda: bool)
    requires Judge(c, p, true, autoCuda) == Accepted && p.objective.Absent? && Ready(parts, c)
    ensures var n := NewConfig(c, p, true, autoCuda);
            Ready(parts, n) <==> !HarmfulSwitch(parts, c, n)
  {
    PlacementMovesIff(c, p, autoCuda);
  }

  /** Why a run stops: a reset fails after it has changed the configuration, or switches a forest plan harmfully. */
  datatype Stop = Failed(status: ResetStatus) | PlanSwitched

  predicate StopsReset(r: ResetStatus, p: Params, parts: Parts, c: Config, n: Config) {
    !Untouched(r) && (!Committed(r) || (p.objective.Absent? && HarmfulSwitch(parts, c, n)))
  }

  ghost function StopAfter(s: State, op: Op, autoCuda: bool): Option<Stop> {
    if !op.Reset? then None
    else
      var r, n := Outcome(s, op.p, autoCuda, op.env), Next(s, op.p, autoCuda);
      if !StopsReset(r, op.p, s.owned, s.config, n) then None
      else if Committed(r) then Some(PlanSwitched)
      else Some(Failed(r))
  }

  /** The caller sees from the status and the configurations whether the run stops. */
  lemma StopSeen(s: State, p: Params, autoCuda: bool, env: Env, t: State)
    requires ResetStep(s, p, autoCuda, env, t)
    ensures var r := Outcome(s, p, autoCuda, env);
            StopsReset(r, p, s.owned, s.config, t.config) <==> StopAfter(s, Reset(p, env), autoCuda).Some?
  {
  }

  lemma ResetKeeps(s: State, p: Params, autoCuda: bool, env: Env, t: State)
    requires Good(s) && ResetStep(s, p, autoCuda, env, t) && Committed(Outcome(s, p, autoCuda, env))
    ensures PartsAgree(t.owned)
    ensures Good(t) <==> !(p.objective.Absent? && HarmfulSwitch(s.owned, s.config, t.config))
  {
    AcceptedKeeps(s.config, p, autoCuda);
    if p.objective.Absent? {
      ReadyKeptIff(s.owned, s.config, p, autoCuda);
    } else {
      BuiltTogetherAgree(t.owned, t.config, s.trainData.value, s.validData);
    }
  }

  /** Every step that does not stop the run keeps the invariant; one that stops it still leaves every device metric
      beside a device objective, and a harmful switch leaves the booster unready. */
  lemma StepKeeps(s: State, op: Op, autoCuda: bool, t: State)
    requires Good(s) && Step(s, op, autoCuda, t)
    ensures PartsAgree(t.owned)
    ensures StopAfter(s, op, autoCuda).None? ==> Good(t)
    ensures StopAfter(s, op, autoCuda) == Some(PlanSwitched) ==> !Ready(t.owned, t.config)
  {
    match op
    case Reset(p, env) =>
      if Committed(Outcome(s, p, autoCuda, env)) {
        ResetKeeps(s, p, autoCuda, env, t);
      }
    case AddValid(dataset) =>
      AppendAgrees(s.owned, s.config, t.owned.valid[|s.owned.valid|], dataset);
    case ResetTrain(dataset) =>
      if s.trainData != Some(dataset) {
        RetrainAgrees(t.owned, s.config, dataset, s.owned.valid);
      }
  }

  /** What each building step does to agreement, also in a booster that is not ready: it survives exactly when the new
      metrics have their objective, or the metrics that stay have the new one. */
  lemma BuildAgreesIff(s: State, op: Op, autoCuda: bool, t: State)
    requires PartsAgree(s.owned) && !op.Reset? && Step(s, op, autoCuda, t)
    ensures op.AddValid? ==> (PartsAgree(t.owned) <==> MetricsReady(s.owned, s.config) || !NamesCuda(s.config.metrics))
    ensures op.ResetTrain? ==>
              (PartsAgree(t.owned) <==> ObjectiveReady(s.owned, s.config) || s.trainData == Some(op.dataset))
  {
    if op.AddValid? {
      AppendAgrees(s.owned, s.config, t.owned.valid[|s.owned.valid|], op.dataset);
    } else if s.trainData != Some(op.dataset) {
      RetrainAgrees(t.owned, s.config, op.dataset, s.owned.valid);
    }
  }

  /** A forest built on the host whose plan a reset switches on gets a CUDA metric beside its host objective on its next
      validation set, whenever a metric has a CUDA class. */
  lemma SwitchedOnBreaks(s: State, p: Params, autoCuda: bool, env: Env, t: State, dataset: nat, u: State)
    requires Good(s) && ObjectiveFor(s.owned.objective, s.config) && NamesCuda(s.config.metrics)
    requires ResetStep(s, p, autoCuda, env, t) && Committed(Outcome(s, p, autoCuda, env)) && p.objective.Absent?
    requires PlanSwitchedOn(s.config, t.config) && AddValidStep(t, dataset, u)
    ensures !PartsAgree(u.owned)
  {
    AcceptedKeeps(s.config, p, autoCuda);
    ReadyKeptIff(s.owned, s.config, p, autoCuda);
    AppendAgrees(t.owned, t.config, u.owned.valid[|t.owned.valid|], dataset);
  }

  /** A forest built on the device whose plan a reset switches off keeps the CUDA metrics of its validation sets beside
      the host objective of its next training data. */
  lemma SwitchedOffBreaks(s: State, p: Params, autoCuda: bool, env: Env, t: State, dataset: nat, u: State)
    requires Good(s) && AnyListOnDevice(s.owned.valid)
    requires ResetStep(s, p, autoCuda, env, t) && Committed(Outcome(s, p, autoCuda, env)) && p.objective.Absent?
    requires PlanSwitchedOff(s.config, t.config) && RetrainStep(t, dataset, u) && t.trainData != Some(dataset)
    ensures !PartsAgree(u.owned)
  {
    AcceptedKeeps(s.config, p, autoCuda);
    RetrainAgrees(u.owned, t.config, dataset, t.owned.valid);
  }

  // ---------------------------------------------------------------- runs

  /** The states of a run that nothing stops: one before every operation, and one after the last. */
  ghost predicate IsRun(trace: seq<State>, ops: seq<Op>, autoCuda: bool) {
    && |trace| == |ops| + 1
    && forall i {:trigger ops[i]} | 0 <= i < |ops| ::
         Step(trace[i], ops[i], autoCuda, trace[i + 1]) && StopAfter(trace[i], ops[i], autoCuda).None?
  }

  lemma RunExtends(trace: seq<State>, ops: seq<Op>, autoCuda: bool, op: Op, t: State)
    requires IsRun(trace, ops, autoCuda)
    requires Step(trace[|ops|], op, autoCuda, t) && StopAfter(trace[|ops|], op, autoCuda).None?
    ensures IsRun(trace + [t], ops + [op], autoCuda)
  {
    var more, last := ops + [op], trace + [t];
    forall i {:trigger more[i]} | 0 <= i < |more|
      ensures Step(last[i], more[i], autoCuda, last[i + 1]) && StopAfter(last[i], more[i], autoCuda).None?
    {
      if i < |ops| {
        assert more[i] == ops[i] && last[i] == trace[i] && last[i + 1] == trace[i + 1];
      }
    }
  }

  /** Over every run that nothing stops, every device metric stands beside a device objective in every state. */
  lemma {:induction false} RunsAgree(trace: seq<State>, ops: seq<Op>, autoCuda: bool, k: nat)
    requires IsRun(trace, ops, autoCuda) && Good(trace[0]) && k <= |ops|
    ensures Good(trace[k])
  {
    if k > 0 {
      RunsAgree(trace, ops, autoCuda, k - 1);
      var op := ops[k - 1];
      StepKeeps(trace[k - 1], op, autoCuda, trace[k]);
    }
  }
}
