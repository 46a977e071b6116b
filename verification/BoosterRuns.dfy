/** Runs of the Booster class: they follow the state machine, and the ways agreement is lost after a harmful switch. */
module BoosterRuns {
  import opened BoosterConfig
  import opened BoosterParts
  import opened BoosterState
  import opened BoosterSteps
  import opened Options

  /** One reset, and whether it stops the run. */
  method PerformReset(b: Booster, p: Params, autoCuda: bool, env: Env) returns (stop: bool)
    requires b.Valid()
    modifies b
    ensures ResetStep(old(b.Now()), p, autoCuda, env, b.Now())
    ensures stop <==> StopAfter(old(b.Now()), Reset(p, env), autoCuda).Some?
    ensures Outcome(old(b.Now()), p, autoCuda, env) != HandoverBroken ==> b.Valid()
  {
    ghost var before := b.Now();
    var config, owned := b.config, b.owned;
    var s := b.ResetConfig(p, autoCuda, env);
    stop := StopsReset(s, p, owned, config, b.config);
    StopSeen(before, p, autoCuda, env, b.Now());
  }

  /** One operation of a booster in a good state takes the step of the state machine. */
  method Perform(b: Booster, op: Op, autoCuda: bool) returns (stop: bool)
    requires b.Valid() && Good(b.Now())
    modifies b
    ensures Step(old(b.Now()), op, autoCuda, b.Now()) && PartsAgree(b.owned)
    ensures stop <==> StopAfter(old(b.Now()), op, autoCuda).Some?
    ensures !stop ==> b.Valid() && Good(b.Now())
    ensures StopAfter(old(b.Now()), op, autoCuda) != Some(Failed(HandoverBroken)) ==> b.Valid()
  {
    ghost var before := b.Now();
    stop := false;
    match op {
      case Reset(p, env) =>
        stop := PerformReset(b, p, autoCuda, env);
      case AddValid(dataset) =>
        b.AddValidData(dataset);
      case ResetTrain(dataset) =>
        ghost var window := b.ResetTrainingData(dataset);
    }
    StepKeeps(before, op, autoCuda, b.Now());
  }

  /** Every sequence of resets, added validation sets and changes of the training data, up to the first operation that
      stops it. Every device metric stands beside a device objective in every state, also the last, and the booster is
      consistent unless GBDT refused late. */
  method Run(b: Booster, ops: seq<Op>, autoCuda: bool) returns (done: nat, ghost trace: seq<State>)
    requires b.Valid() && Good(b.Now())
    modifies b
    ensures done <= |ops| && IsRun(trace, ops[..done], autoCuda) && trace[0] == old(b.Now())
    ensures forall k {:trigger trace[k]} | 0 <= k <= done :: PartsAgree(trace[k].owned)
    ensures done == |ops| ==> b.Now() == trace[done] && b.Valid() && Good(b.Now())
    ensures done < |ops| ==>
              && StopAfter(trace[done], ops[done], autoCuda).Some?
              && Step(trace[done], ops[done], autoCuda, b.Now()) && PartsAgree(b.owned)
              && (StopAfter(trace[done], ops[done], autoCuda) != Some(Failed(HandoverBroken)) ==> b.Valid())
  {
    trace := [b.Now()];
    done := 0;
    while done < |ops|
      invariant done <= |ops| && IsRun(trace, ops[..done], autoCuda) && trace[0] == old(b.Now())
      invariant b.Now() == trace[done] && b.Valid() && Good(b.Now()) && Good(trace[0])
    {
      var stop := Perform(b, ops[done], autoCuda);
      if stop {
        break;
      }
      RunExtends(trace, ops[..done], autoCuda, ops[done], b.Now());
      trace := trace + [b.Now()];
      done := done + 1;
      assert ops[..done] == ops[..done - 1] + [ops[done - 1]];
    }
    forall k {:trigger trace[k]} | 0 <= k <= done
      ensures PartsAgree(trace[k].owned)
    {
      RunsAgree(trace, ops[..done], autoCuda, k);
    }
  }

  // ---------------------------------------------------------------- examples

  const NO_TROUBLE := Env(false, false, NO_FAILURE, false, false)

  /** The plan switched on in a host forest, and a validation set added. */
  method ForestPlanOnExample() returns (b: Booster)
    ensures fresh(b) && b.Valid() && b.config.boosting == Rf && !PartsAgree(b.owned)
  {
    var keys := NO_KEYS.(boosting := Given(Named(Rf)), device := Given(Cuda), rfDeviceObjective := Given(false));
    var p := NO_KEYS.(rfDeviceObjective := Given(true));
    ForestReset(keys, p);
    b := new Booster(keys, 0, false);
    ghost var before := b.Now();
    var s := b.ResetConfig(p, false, NO_TROUBLE);
    ghost var switched := b.Now();
    b.AddValidData(1);
    SwitchedOnBreaks(before, p, false, NO_TROUBLE, switched, 1, b.Now());
  }

  /** A device forest with a validation set. */
  method DeviceForest(keys: Params) returns (b: Booster)
    requires keys == NO_KEYS.(boosting := Given(Named(Rf)), device := Given(Cuda), rfDeviceObjective := Given(true))
    ensures fresh(b) && b.Valid() && Good(b.Now()) && AnyListOnDevice(b.owned.valid)
    ensures b.config == Set(DEFAULT, keys, false) && b.trainData == Some(0)
  {
    ForestReset(keys, NO_KEYS);
    b := new Booster(keys, 0, false);
    ghost var built := b.Now();
    b.AddValidData(1);
    ForestListOnDevice(keys, built, b.Now());
    StepKeeps(built, AddValid(1), false, b.Now());
  }

  /** The plan switched off in a device forest with a validation set, and the training data changed. */
  method ForestPlanOffExample() returns (b: Booster)
    ensures fresh(b) && b.Valid() && b.config.boosting == Rf && !PartsAgree(b.owned)
  {
    var keys := NO_KEYS.(boosting := Given(Named(Rf)), device := Given(Cuda), rfDeviceObjective := Given(true));
    var p := NO_KEYS.(rfDeviceObjective := Given(false));
    ForestReset(keys, p);
    b := DeviceForest(keys);
    ghost var before := b.Now();
    var s := b.ResetConfig(p, false, NO_TROUBLE);
    ghost var switched := b.Now();
    ghost var window := b.ResetTrainingData(2);
    SwitchedOffBreaks(before, p, false, NO_TROUBLE, switched, 2, b.Now());
  }

  lemma ForestReset(keys: Params, p: Params)
    requires keys == NO_KEYS.(boosting := Given(Named(Rf)), device := Given(Cuda),
                              rfDeviceObjective := keys.rfDeviceObjective)
    requires p == NO_KEYS.(rfDeviceObjective := p.rfDeviceObjective)
    ensures var c := Set(DEFAULT, keys, false);
            var n := NewConfig(c, p, true, false);
            && Judge(c, p, true, false) == Accepted && !ClassesConflict(c) && !ClassesConflict(n)
            && n.rfDeviceObjective == Or(p.rfDeviceObjective, c.rfDeviceObjective)
            && c.objective == n.objective == Regression && c.metrics == [L2] && NamesCuda(c.metrics) && PlanDecides(c)
  {
    var c := Set(DEFAULT, keys, false);
    assert L2 in c.metrics;
  }

  lemma ForestListOnDevice(keys: Params, s: State, t: State)
    requires keys == NO_KEYS.(boosting := Given(Named(Rf)), device := Given(Cuda), rfDeviceObjective := Given(true))
    requires s.config == Set(DEFAULT, keys, false) && AddValidStep(s, 1, t)
    ensures AnyListOnDevice(t.owned.valid)
  {
    var ms := t.owned.valid[|s.owned.valid|];
    assert L2 in s.config.metrics;
    ListOnDeviceIff(ms, s.config.metrics, 1, true);
  }

  /** A booster built with an empty metric list (metric=",") and given a validation set can no longer reset its
      objective: the reset would add the objective's metric, and GBDT refuses the new count. */
  method EmptyMetricListExample() returns (b: Booster, s: ResetStatus)
    ensures fresh(b) && s.HandoverBroken? && b.dangled
  {
    var keys := NO_KEYS.(metric := Given([]), device := Given(Cpu));
    var p := NO_KEYS.(objective := Given(Binary));
    EmptyListReset(keys, p);
    b := new Booster(keys, 0, false);
    ghost var before := b.Now();
    b.AddValidData(1);
    EmptyListOutcome(keys, p, before, b.Now());
    s := b.ResetConfig(p, false, NO_TROUBLE);
  }

  lemma EmptyListReset(keys: Params, p: Params)
    requires keys == NO_KEYS.(metric := Given([]), device := Given(Cpu)) && p == NO_KEYS.(objective := Given(Binary))
    ensures var c := Set(DEFAULT, keys, false);
            var n := NewConfig(c, p, true, false);
            && !ClassesConflict(c) && c.objective == Regression && c.metrics == []
            && Judge(c, p, true, false) == Accepted && !ClassesConflict(n)
            && n.objective == Binary && n.metrics == [BinaryLogloss]
  {
  }

  lemma EmptyListOutcome(keys: Params, p: Params, s: State, t: State)
    requires keys == NO_KEYS.(metric := Given([]), device := Given(Cpu)) && p == NO_KEYS.(objective := Given(Binary))
    requires s.config == Set(DEFAULT, keys, false) && s.trainData.Some? && AddValidStep(s, 1, t)
    ensures Outcome(t, p, false, NO_TROUBLE) == HandoverBroken && Next(t, p, false).objective == Binary
  {
    EmptyListReset(keys, p);
    CountRefused(Next(t, p, false), t.trainData.value, t.validData, t.owned.valid, |s.owned.valid|);
  }

  lemma CountRefused(n: Config, train: nat, valid: seq<nat>, before: seq<seq<Object>>, i: nat)
    requires n.objective == Binary && n.metrics == [BinaryLogloss] && i < |before| && |before[i]| == 0
    ensures RebuildOutcome(n, train, valid, before, NO_TROUBLE) == HandoverBroken
  {
  }
}
