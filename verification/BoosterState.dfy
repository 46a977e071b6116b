/** The Booster class: construction, AddValidData, ResetTrainingData and the build-then-commit ResetConfig. */
module BoosterState {
  import opened BoosterConfig
  import opened BoosterParts
  import opened BoosterSteps
  import opened Options

  class Booster {
    var config: Config
    var trainData: Option<nat>
    var validData: seq<nat>
    /** The objects the booster owns. */
    var owned: Parts
    /** The objects GBDT points to. */
    var gbdt: Parts
    /** The allocator: addresses from here on have never been used. */
    var nextAddress: nat
    /** The objects not destroyed yet. */
    ghost var live: set<Object>
    /** Whether the steps are being watched for dangling pointers: always, except inside ResetTrainingData. */
    ghost var watched: bool
    /** Whether GBDT has pointed to a dead object after any watched step. */
    ghost var dangled: bool
    /** The metric list at construction. */
    ghost const firstMetrics: seq<MetricName>

    ghost function Now(): State
      reads this
    {
      State(config, trainData, validData, owned)
    }

    /** GBDT's pointers are live, and after every watched step so far always were. */
    ghost predicate Safe()
      reads this
    {
      (watched ==> All(gbdt) <= live) && Within(live, 0, nextAddress) && !dangled
    }

    /** GBDT's pointers are exactly the booster's objects, and no other object is alive. */
    ghost predicate Settled()
      reads this
    {
      gbdt == owned && live == All(owned) && Apart(owned) && Within(live, 0, nextAddress) && watched && !dangled
    }

    ghost predicate Valid()
      reads this
    {
      && Settled() && |validData| == |owned.valid|
      && (trainData.None? ==> owned == Parts(None, [], []))
      && (trainData.Some? && config.boosting == Rf ==> owned.objective.Some?)
      && (trainData.Some? && firstMetrics != [] ==>
            && config.metrics == firstMetrics
            && forall i {:trigger owned.valid[i]} | 0 <= i < |owned.valid| :: |owned.valid[i]| == |Known(firstMetrics)|)
    }

    /** Records whether GBDT points to a dead object after the step just taken. */
    ghost method Observe()
      modifies this`dangled
      ensures dangled <==> old(dangled) || (watched && !(All(gbdt) <= live))
    {
      dangled := dangled || (watched && !(All(gbdt) <= live));
    }

    // ---------------------------------------------------------------- building

    /** Allocates and initializes one object; a failed initialization destroys it. */
    method Create(kind: Kind, onDevice: bool, fails: Kind -> bool) returns (ok: bool, o: Object)
      requires Safe()
      modifies this`live, this`nextAddress, this`dangled
      ensures Safe() && nextAddress >= old(nextAddress)
      ensures o.kind == kind && o.onDevice == onDevice
      ensures ok <==> !fails(kind)
      ensures ok ==> Grown(old(live), old(nextAddress), live, nextAddress, {o})
      ensures !ok ==> live == old(live)
    {
      o := Object(nextAddress, kind, onDevice);
      live, nextAddress := live + {o}, nextAddress + 1;
      Observe();
      ok := !fails(kind);
      if !ok {
        live := live - {o};
        Observe();
      }
    }

    /** The objective of the configuration. */
    method CreateObjective(fails: Kind -> bool) returns (ok: bool, o: Option<Object>)
      requires Safe()
      modifies this`live, this`nextAddress, this`dangled
      ensures Safe() && nextAddress >= old(nextAddress)
      ensures ok <==> !ObjectiveFails(config, fails)
      ensures ok ==> ObjectiveFor(o, config)
      ensures ok ==> Grown(old(live), old(nextAddress), live, nextAddress, OptionSet(o))
      ensures !ok ==> live == old(live)
    {
      o := None;
      if config.objective.UnknownObjective? {
        return false, None;
      }
      ok := true;
      if config.objective != CustomObjective {
        var built;
        ok, built := Create(ObjectiveKind, ObjectiveOnDevice(config), fails);
        o := Some(built);
      }
    }

    /** The metric of one name, if the factory knows the name. */
    method CreateMetric(name: MetricName, dataset: nat, fails: Kind -> bool) returns (ok: bool, m: Option<Object>)
      requires Safe()
      modifies this`live, this`nextAddress, this`dangled
      ensures Safe() && nextAddress >= old(nextAddress)
      ensures ok <==> !(IsKnown(name) && fails(MetricKind(name, dataset)))
      ensures ok ==> (m.Some? <==> IsKnown(name))
      ensures ok && m.Some? ==> m.value.kind == MetricKind(name, dataset)
      ensures ok && m.Some? ==> m.value.onDevice == MetricOnDevice(config, name)
      ensures ok ==> Grown(old(live), old(nextAddress), live, nextAddress, OptionSet(m))
      ensures !ok ==> live == old(live)
    {
      ok, m := true, None;
      if IsKnown(name) {
        var built;
        ok, built := Create(MetricKind(name, dataset), MetricOnDevice(config, name), fails);
        m := Some(built);
      }
    }

    /** The configured metrics on one dataset; names without a metric are skipped. */
    method CreateMetrics(dataset: nat, fails: Kind -> bool) returns (ok: bool, ms: seq<Object>)
      requires Safe()
      modifies this`live, this`nextAddress, this`dangled
      ensures Safe() && nextAddress >= old(nextAddress)
      ensures ok <==> !MetricsFail(config.metrics, dataset, fails)
      ensures ok ==> MetricsFor(ms, config.metrics, dataset, BoostsOnDevice(config))
      ensures ok ==> Grown(old(live), old(nextAddress), live, nextAddress, SeqSet(ms))
      ensures !ok ==> live == old(live)
    {
      ms := [];
      ok := true;
      var names := config.metrics;
      for i := 0 to |names|
        invariant Safe() && ok
        invariant !MetricsFail(names[..i], dataset, fails)
        invariant MetricsFor(ms, names[..i], dataset, BoostsOnDevice(config))
        invariant Grown(old(live), old(nextAddress), live, nextAddress, SeqSet(ms))
      {
        ghost var live1, next1 := live, nextAddress;
        MetricsFailStep(names, i, dataset, fails);
        var m;
        ok, m := CreateMetric(names[i], dataset, fails);
        if !ok {
          GrownUndo(old(live), old(nextAddress), live1, next1, SeqSet(ms));
          live := live - SeqSet(ms);
          Observe();
          return;
        }
        GrownStep(old(live), old(nextAddress), live1, next1, SeqSet(ms), live, nextAddress, OptionSet(m));
        MetricsForStep(ms, names, i, dataset, BoostsOnDevice(config), m);
        SeqSetNext(ms, m);
        ms := Appended(ms, m);
      }
      assert names[..|names|] == names;
    }

    /** One more metric list on top of what was built; a failure destroys all of it. */
    method CreateNext(dataset: nat, fails: Kind -> bool, ghost live0: set<Object>, ghost next0: nat,
                      ghost built: set<Object>)
      returns (ok: bool, ms: seq<Object>)
      requires Safe() && Within(live0, 0, next0) && Grown(live0, next0, live, nextAddress, built)
      requires watched ==> All(gbdt) <= live0
      modifies this`live, this`nextAddress, this`dangled
      ensures Safe() && nextAddress >= old(nextAddress)
      ensures ok <==> !MetricsFail(config.metrics, dataset, fails)
      ensures ok ==> MetricsFor(ms, config.metrics, dataset, BoostsOnDevice(config))
      ensures ok ==> Grown(live0, next0, live, nextAddress, built + SeqSet(ms)) && built !! SeqSet(ms)
      ensures !ok ==> live == live0
    {
      ok, ms := CreateMetrics(dataset, fails);
      if ok {
        GrownStep(live0, next0, old(live), old(nextAddress), built, live, nextAddress, SeqSet(ms));
      } else {
        GrownUndo(live0, next0, old(live), old(nextAddress), built);
        live := live - built;
        Observe();
      }
    }

    /** The metrics of every validation set, on top of the objective and the training metrics. */
    method CreateValidMetrics(fails: Kind -> bool, ghost live0: set<Object>, ghost next0: nat,
                              ghost first: set<Object>)
      returns (ok: bool, lists: seq<seq<Object>>)
      requires Safe() && Within(live0, 0, next0) && Grown(live0, next0, live, nextAddress, first)
      requires watched ==> All(gbdt) <= live0
      modifies this`live, this`nextAddress, this`dangled
      ensures Safe() && nextAddress >= old(nextAddress)
      ensures ok <==> !ListsFail(config.metrics, validData, fails)
      ensures ok ==> ListsFor(lists, config, validData)
      ensures ok ==> Grown(live0, next0, live, nextAddress, first + ListsSet(lists)) && first !! ListsSet(lists)
      ensures !ok ==> live == live0
    {
      lists := [];
      ok := true;
      ghost var built: set<Object> := {};
      for i := 0 to |validData|
        invariant Safe() && ok && nextAddress >= old(nextAddress)
        invariant !ListsFail(config.metrics, validData[..i], fails)
        invariant ListsFor(lists, config, validData[..i])
        invariant built == ListsSet(lists) && first !! built
        invariant Grown(live0, next0, live, nextAddress, first + built)
      {
        var ms;
        ok, ms := CreateNext(validData[i], fails, live0, next0, first + built);
        if !ok {
          return;
        }
        ListsSetAppend(lists, ms);
        ListsForStep(lists, config, validData, i, ms);
        assert first + built + SeqSet(ms) == first + (built + SeqSet(ms));
        built := built + SeqSet(ms);
        lists := lists + [ms];
      }
      assert validData[..|validData|] == validData;
    }

    /** Builds and initializes everything a reset of the objective replaces. */
    method BuildAll(fails: Kind -> bool) returns (ok: bool, parts: Parts)
      requires Safe() && trainData.Some?
      modifies this`live, this`nextAddress, this`dangled
      ensures Safe() && nextAddress >= old(nextAddress)
      ensures ok <==> !BuildFails(config, trainData.value, validData, fails)
      ensures ok ==> BuiltFrom(parts, config, trainData.value, validData)
      ensures ok ==> Grown(old(live), old(nextAddress), live, nextAddress, All(parts)) && Apart(parts)
      ensures !ok ==> live == old(live)
    {
      parts := Parts(None, [], []);
      var objective, train, valid;
      ok, objective := CreateObjective(fails);
      if !ok {
        return;
      }
      ok, train := CreateNext(trainData.value, fails, old(live), old(nextAddress), OptionSet(objective));
      if !ok {
        return;
      }
      ok, valid := CreateValidMetrics(fails, old(live), old(nextAddress), OptionSet(objective) + SeqSet(train));
      parts := Parts(objective, train, if ok then valid else []);
    }

    // ---------------------------------------------------------------- GBDT

    /** GBDT::ResetTrainingData: refusals before taking the pointers leave it unchanged; a forest's Boosting() refuses
        a custom objective after they are taken. */
    method GbdtResetTrainingData(o: Option<Object>, train: seq<Object>, refuses: bool)
      returns (taken: bool, broken: bool)
      requires Safe() && watched && OptionSet(o) + SeqSet(train) <= live
      modifies this`gbdt, this`dangled
      ensures Safe() && taken == !refuses
      ensures gbdt == if taken then Parts(o, train, old(gbdt).valid) else old(gbdt)
      ensures broken <==> taken && config.boosting == Rf && o.None?
    {
      taken := !refuses;
      broken := taken && config.boosting == Rf && o.None?;
      if taken {
        gbdt := gbdt.(objective := o);
        Observe();
        gbdt := gbdt.(train := train);
        Observe();
      }
    }

    /** GBDT::ResetValidMetrics: the metric count of a validation set is fixed. */
    method GbdtResetValidMetrics(i: nat, ms: seq<Object>) returns (ok: bool)
      requires Safe() && watched && i < |gbdt.valid| && SeqSet(ms) <= live
      modifies this`gbdt, this`dangled
      ensures Safe()
      ensures ok <==> |ms| == |old(gbdt).valid[i]|
      ensures gbdt == if ok then old(gbdt).(valid := old(gbdt).valid[i := ms]) else old(gbdt)
    {
      ok := |ms| == |gbdt.valid[i]|;
      if ok {
        ListsSetUpdate(gbdt.valid, i, ms);
        gbdt := gbdt.(valid := gbdt.valid[i := ms]);
        Observe();
      }
    }

    /** The validation sets in turn, up to the first that GBDT refuses. */
    method HandoverValid(lists: seq<seq<Object>>) returns (ok: bool)
      requires Safe() && watched && ListsSet(lists) <= live && |lists| == |gbdt.valid|
      modifies this`gbdt, this`dangled
      ensures Safe() && gbdt.objective == old(gbdt).objective && gbdt.train == old(gbdt).train
      ensures ok <==> SameCounts(lists, old(gbdt).valid)
      ensures ok ==> gbdt.valid == lists
      ensures ListsSet(gbdt.valid) <= ListsSet(old(gbdt).valid) + ListsSet(lists)
    {
      ghost var before := gbdt.valid;
      for i := 0 to |lists|
        invariant Safe() && gbdt == old(gbdt).(valid := gbdt.valid) && |gbdt.valid| == |lists|
        invariant forall k {:trigger gbdt.valid[k]} | 0 <= k < |lists| ::
                    gbdt.valid[k] == if k < i then lists[k] else before[k]
        invariant forall k {:trigger lists[k]} | 0 <= k < i :: |lists[k]| == |before[k]|
        invariant ListsSet(gbdt.valid) <= ListsSet(before) + ListsSet(lists)
      {
        ListsSetHas(lists, i);
        ListsSetUpdate(gbdt.valid, i, lists[i]);
        ok := GbdtResetValidMetrics(i, lists[i]);
        if !ok {
          return;
        }
      }
      ok := true;
    }

    /** Hands the new pointers to GBDT while old and new objects are all alive. */
    method Handover(parts: Parts, refuses: bool) returns (s: ResetStatus)
      requires gbdt == owned && Safe() && watched && All(parts) <= live && |parts.valid| == |owned.valid|
      modifies this`gbdt, this`dangled
      ensures Safe()
      ensures s == if refuses then HandoverRefused
                   else if RefusedLate(parts, owned.valid, config.boosting) then HandoverBroken else Done
      ensures s.HandoverRefused? ==> gbdt == old(gbdt)
      ensures s.Done? ==> gbdt == parts
      ensures s.HandoverBroken? ==> Took(gbdt, parts, All(owned))
    {
      var taken, broken := GbdtResetTrainingData(parts.objective, parts.train, refuses);
      if !taken {
        return HandoverRefused;
      }
      if broken {
        return HandoverBroken;
      }
      var ok := HandoverValid(parts.valid);
      s := if ok then Done else HandoverBroken;
    }

    // ---------------------------------------------------------------- ResetConfig

    /** The new objects replace the old ones, which die only after GBDT has let go of them. */
    method Commit(parts: Parts)
      requires gbdt == parts && Safe() && watched && live == All(owned) + All(parts) && All(owned) !! All(parts)
      modifies this`owned, this`live, this`dangled
      ensures owned == parts && live == All(parts) && Safe()
    {
      live, owned := live - OptionSet(owned.objective), owned.(objective := parts.objective);
      Observe();
      live, owned := live - SeqSet(owned.train), owned.(train := parts.train);
      Observe();
      live, owned := live - ListsSet(owned.valid), owned.(valid := parts.valid);
      Observe();
    }

    /** Unwinding destroys the new objects. */
    ghost method Abandon(parts: Parts, s: ResetStatus, live0: set<Object>, next0: nat)
      requires Safe() && watched && CountsAs(parts, config)
      requires Within(live0, 0, next0) && Grown(live0, next0, live, nextAddress, All(parts)) && All(owned) == live0
      requires !s.HandoverBroken? ==> gbdt == owned
      requires s.HandoverBroken? ==> Took(gbdt, parts, live0)
      modifies this`live, this`dangled
      ensures live == live0
      ensures !s.HandoverBroken? ==> Safe()
      ensures s.HandoverBroken? ==> (dangled <==> config.objective != CustomObjective || Known(config.metrics) != [])
    {
      GrownUndo(live0, next0, live, nextAddress, All(parts));
      live := live - All(parts);
      Observe();
      if s.HandoverBroken? {
        BrokenDangles(parts, config, gbdt, live);
      }
    }

    /** The hand-over of built objects, and what follows it. */
    method Replace(parts: Parts, refuses: bool, ghost live0: set<Object>, ghost next0: nat) returns (s: ResetStatus)
      requires gbdt == owned && live0 == All(owned) && Apart(owned) && Apart(parts) && Safe() && watched
      requires Within(live0, 0, next0) && Grown(live0, next0, live, nextAddress, All(parts))
      requires CountsAs(parts, config) && |parts.valid| == |owned.valid|
      modifies this`owned, this`gbdt, this`live, this`dangled
      ensures s == if refuses then HandoverRefused
                   else if RefusedLate(parts, old(owned).valid, config.boosting) then HandoverBroken else Done
      ensures owned == if s.Done? then parts else old(owned)
      ensures !s.HandoverBroken? ==> Settled()
      ensures s.HandoverBroken? ==> (dangled <==> config.objective != CustomObjective || Known(config.metrics) != [])
    {
      s := Handover(parts, refuses);
      if s.Done? {
        Commit(parts);
      } else {
        Abandon(parts, s, live0, next0);
      }
    }

    /** Builds everything, hands it over and commits; the new configuration is already in place. */
    method Rebuild(env: Env) returns (s: ResetStatus)
      requires Settled() && trainData.Some? && |validData| == |owned.valid|
      modifies this`owned, this`gbdt, this`live, this`nextAddress, this`dangled
      ensures s == RebuildOutcome(config, trainData.value, validData, old(owned).valid, env)
      ensures if s.Done? then BuiltFrom(owned, config, trainData.value, validData) else owned == old(owned)
      ensures !s.HandoverBroken? ==> Settled()
      ensures s.HandoverBroken? ==> (dangled <==> config.objective != CustomObjective || Known(config.metrics) != [])
    {
      var ok, built := BuildAll(env.fails);
      if ok {
        CountsDecide(built, config, trainData.value, validData, owned.valid);
        s := Replace(built, env.refusesObjective, old(live), old(nextAddress));
      } else {
        s := BuildFailed;
      }
    }

    /** The checks, and then the new configuration: the only step of a reset without an objective key that the
        booster's own state sees. Done means that the reset goes on. */
    method Configure(p: Params, autoCuda: bool, env: Env) returns (s: ResetStatus)
      requires Valid()
      modifies this`config
      ensures Valid()
      ensures s == SetOutcome(old(Now()), p, autoCuda, env)
      ensures config == if Untouched(s) then old(config) else Next(old(Now()), p, autoCuda)
    {
      if env.unreadable {
        return Unreadable;
      }
      var verdict := Judge(config, p, trainData.Some?, autoCuda);
      if verdict != Accepted {
        return Rejected(verdict);
      }
      if trainData.Some? {
        AcceptedKeeps(config, p, autoCuda);
      }
      config := NewConfig(config, p, trainData.Some?, autoCuda);
      return if env.otherConflict || ClassesConflict(config) then SetRefused else Done;
    }

    /** What follows the new configuration: with an objective key, the rebuild; then GBDT's own configuration. */
    method Install(p: Params, env: Env) returns (s: ResetStatus)
      requires Valid()
      modifies this`owned, this`gbdt, this`live, this`nextAddress, this`dangled
      ensures s == InstallOutcome(old(Now()), p, env)
      ensures if Committed(s) && !p.objective.Absent?
              then BuiltFrom(owned, config, trainData.value, validData)
              else owned == old(owned)
      ensures !s.HandoverBroken? ==> Valid()
      ensures s.HandoverBroken? ==> !p.objective.Absent? && LateCause(config, owned.valid)
      ensures s.HandoverBroken? && firstMetrics != [] ==> config.boosting == Rf && config.objective == CustomObjective
      ensures s.HandoverBroken? ==> (dangled <==> config.objective != CustomObjective || Known(config.metrics) != [])
    {
      s := Done;
      if !p.objective.Absent? {
        if trainData.None? {
          return NoTrainingData;
        }
        s := Rebuild(env);
      }
      if s.Done? && env.refusesConfig {
        s := ConfigRefused;
      }
    }

    /** Booster::ResetConfig. `autoCuda` tells whether an unset device resolves to cuda. */
    method ResetConfig(p: Params, autoCuda: bool, env: Env) returns (s: ResetStatus)
      requires Valid()
      modifies this
      // how it ends, and what it changes, is decided by the state before and the environment
      ensures s == Outcome(old(Now()), p, autoCuda, env) && ResetStep(old(Now()), p, autoCuda, env, Now())
      // no step leaves GBDT with a dead pointer, except a late refusal
      ensures !s.HandoverBroken? ==> Valid()
      ensures s.HandoverBroken? ==> !p.objective.Absent? && LateCause(config, owned.valid)
      ensures s.HandoverBroken? && firstMetrics != [] ==> config.boosting == Rf && config.objective == CustomObjective
      ensures s.HandoverBroken? ==> (dangled <==> config.objective != CustomObjective || Known(config.metrics) != [])
    {
      var first := Configure(p, autoCuda, env);
      s := first;
      if first.Done? {
        s := Install(p, env);
      }
      ResetComposes(old(Now()), p, autoCuda, env, first, Now(), s);
    }

    // ---------------------------------------------------------------- the other changes of a booster

    /** Booster::Booster with training data, for a configuration without conflicts whose objects all build. */
    constructor (p: Params, dataset: nat, autoCuda: bool)
      requires var c := Set(DEFAULT, p, autoCuda);
               && !ClassesConflict(c) && KnownObjective(c.objective)
               && !(c.boosting == Rf && c.objective == CustomObjective)
      ensures Valid() && config == Set(DEFAULT, p, autoCuda) && trainData == Some(dataset) && validData == []
      ensures BuiltFrom(owned, config, dataset, []) && Good(Now())
      ensures firstMetrics == config.metrics
    {
      var c := Set(DEFAULT, p, autoCuda);
      config, trainData, validData := c, Some(dataset), [];
      owned, gbdt, nextAddress := Parts(None, [], []), Parts(None, [], []), 0;
      live, watched, dangled := {}, false, false;
      firstMetrics := c.metrics;
      new;
      ghost var window := CreateObjectiveAndMetrics();
      gbdt := owned;
      watched := true;
      BuiltTogetherAgree(owned, config, dataset, []);
    }

    /** A booster loaded from a model: default configuration, no training data, nothing built. */
    constructor FromModel()
      ensures Valid() && config == DEFAULT && trainData == None && owned == Parts(None, [], [])
    {
      config, trainData, validData := DEFAULT, None, [];
      owned, gbdt, nextAddress := Parts(None, [], []), Parts(None, [], []), 0;
      live, watched, dangled := {}, true, false;
      firstMetrics := [];
    }

    /** Booster::CreateObjectiveAndMetrics, assuming every build succeeds. Each new object replaces the old one, which
        GBDT may still point to: `window` tells whether it pointed to dead objects in between. */
    method CreateObjectiveAndMetrics() returns (ghost window: bool)
      requires gbdt == owned && live == All(owned) && Apart(owned) && Safe() && !watched
      requires trainData.Some? && KnownObjective(config.objective)
      modifies this`owned, this`live, this`nextAddress, this`dangled
      ensures live == All(owned) && Apart(owned) && Safe() && owned.valid == old(owned).valid
      ensures ObjectiveFor(owned.objective, config)
      ensures MetricsFor(owned.train, config.metrics, trainData.value, BoostsOnDevice(config))
      ensures window <==> old(owned).objective.Some? || old(owned).train != []
    {
      var ok, o := CreateObjective(NO_FAILURE);
      live, owned := live - OptionSet(owned.objective), owned.(objective := o);
      window := !(All(gbdt) <= live);
      assert gbdt.objective.Some? ==> gbdt.objective.value in All(gbdt);
      window := ReplaceTrainMetrics(window);
    }

    method ReplaceTrainMetrics(ghost window: bool) returns (ghost window': bool)
      requires live == All(owned) && Apart(owned) && Safe() && !watched && trainData.Some?
      requires gbdt.train == owned.train && gbdt.valid == owned.valid && (window <==> gbdt.objective.Some?)
      modifies this`owned, this`live, this`nextAddress, this`dangled
      ensures live == All(owned) && Apart(owned) && Safe() && owned == old(owned).(train := owned.train)
      ensures MetricsFor(owned.train, config.metrics, trainData.value, BoostsOnDevice(config))
      ensures window' <==> window || old(owned).train != []
    {
      var ok, ms := CreateMetrics(trainData.value, NO_FAILURE);
      live, owned := live - SeqSet(owned.train), owned.(train := ms);
      window' := window || !(All(gbdt) <= live);
      assert gbdt.train != [] ==> gbdt.train[0] in All(gbdt);
    }

    /** Booster::AddValidData, assuming the metrics initialize and GBDT finds the bins aligned. */
    method AddValidData(dataset: nat)
      requires Valid() && trainData.Some?
      modifies this`validData, this`owned, this`gbdt, this`live, this`nextAddress, this`dangled
      ensures Valid() && AddValidStep(old(Now()), dataset, Now())
      // agreement survives exactly when device metrics built now have their objective
      ensures PartsAgree(old(owned)) ==>
                (PartsAgree(owned) <==> MetricsReady(old(owned), config) || !NamesCuda(config.metrics))
    {
      validData := validData + [dataset];
      var ok, ms := CreateMetrics(dataset, NO_FAILURE);
      ListsSetAppend(owned.valid, ms);
      owned := owned.(valid := owned.valid + [ms]);
      gbdt := gbdt.(valid := gbdt.valid + [ms]);
      Observe();
      if PartsAgree(old(owned)) {
        AppendAgrees(old(owned), config, ms, dataset);
      }
    }

    /** Booster::ResetTrainingData, assuming every build and GBDT's checks succeed. The old objective and metrics die
        before GBDT gets the new ones: `window` tells whether it pointed to dead objects in between. */
    method ResetTrainingData(dataset: nat) returns (ghost window: bool)
      requires Valid() && trainData.Some? && KnownObjective(config.objective)
      requires !(config.boosting == Rf && config.objective == CustomObjective)
      modifies this`trainData, this`owned, this`gbdt, this`live, this`nextAddress, this`dangled, this`watched
      ensures Valid() && RetrainStep(old(Now()), dataset, Now())
      ensures window <==> Some(dataset) != old(trainData) && (old(owned).objective.Some? || old(owned).train != [])
      // agreement is restored or lost: the validation metrics stay, the rest is new
      ensures Some(dataset) != old(trainData) ==>
                && (PartsAgree(owned) <==> ObjectiveReady(old(owned), config))
                && (Ready(owned, config) <==> PartsAgree(owned))
    {
      window := false;
      if trainData == Some(dataset) {
        return;
      }
      trainData, watched := Some(dataset), false;
      window := CreateObjectiveAndMetrics();
      gbdt := gbdt.(objective := owned.objective, train := owned.train);
      watched := true;
      RetrainAgrees(owned, config, dataset, owned.valid);
    }
  }
}
