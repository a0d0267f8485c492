/**
 What moves a cluster, said of the configured numbers and the readings alone: when a level is
 entered, when it is left, what the gates stop, and which reports leave no trace.
 */
module Gates {
  import opened ClusterSpec
  import opened ClusterTheorems

  // ----- the readings against the configured numbers -----

  ghost predicate TriggerReached(c: Config, t: SensorTable, temp: int, k: nat)
    requires 1 <= k <= |t.items|
  {
    if c.desc then temp <= t.items[k - 1].threshold else temp >= t.items[k - 1].threshold
  }

  ghost predicate ClearMissed(c: Config, t: SensorTable, temp: int, k: nat)
    requires 1 <= k <= |t.items|
  {
    if c.desc then temp > t.items[k - 1].thresholdClr else temp < t.items[k - 1].thresholdClr
  }

  ghost predicate AuxInRange(c: Config, env: Env, k: nat)
    requires Standard(c) && 1 <= k <= LevelCount(c)
  {
    forall a | a in c.auxSensors ::
      a.sensor in env.report && a.items[k - 1].lowerTemp <= env.report[a.sensor] <= a.items[k - 1].upperTemp
  }

  ghost predicate DiffInRange(c: Config, env: Env, k: nat)
    requires Standard(c) && c.tempDiff && 1 <= k <= LevelCount(c)
  {
    var d := c.diffs[k - 1];
    d.sensor1 in env.report && d.sensor2 in env.report && env.report[d.sensor1] <= env.report[d.sensor2] + d.tempDiff
  }

  /** A full window of rates. */
  predicate RatesKnown(env: Env, sensor: string) { sensor in env.rates && |env.rates[sensor]| >= env.rateCount }

  /** The temperature has never risen more slowly than the target, and never fallen. */
  ghost predicate RisesFast(env: Env, sensor: string, target: real) {
    RatesKnown(env, sensor) && forall r | r in env.rates[sensor] :: r >= target && r >= 0.0
  }

  /** The temperature has always fallen, and faster than a negative target. */
  ghost predicate Cools(env: Env, sensor: string, target: real) {
    RatesKnown(env, sensor) && env.rates[sensor] != [] && forall r | r in env.rates[sensor] :: r < 0.0 && r < target
  }

  /** Level k can be entered by this sensor at this temperature. */
  ghost predicate MayEnter(c: Config, env: Env, t: SensorTable, temp: int, k: nat)
    requires Standard(c) && t in c.sensors && 1 <= k <= LevelCount(c)
  {
    && TriggerReached(c, t, temp, k)
    && (c.aux ==> AuxInRange(c, env, k))
    && (c.tempDiff ==> DiffInRange(c, env, k))
    && (c.rate ==> RisesFast(env, t.sensor, t.items[k - 1].tempRiseRate))
  }

  /** Level k cannot be kept by this sensor at this temperature. */
  ghost predicate MustLeave(c: Config, env: Env, t: SensorTable, temp: int, k: nat)
    requires Standard(c) && t in c.sensors && 1 <= k <= LevelCount(c)
  {
    || ClearMissed(c, t, temp, k)
    || (c.aux && !AuxInRange(c, env, k))
    || (c.tempDiff && !DiffInRange(c, env, k))
    || (c.rate && (t.sensor !in env.rates || Cools(env, t.sensor, t.items[k - 1].tempRiseRate)))
  }

  // ----- these are the conditions the searches test -----

  lemma AuxExactly(c: Config, env: Env, k: nat)
    requires Standard(c) && 1 <= k <= LevelCount(c)
    ensures AuxHolds(c, env, k) <==> AuxInRange(c, env, k)
  {
    if AuxInRange(c, env, k) {
      forall i | 0 <= i < |c.auxSensors|
        ensures c.auxSensors[i].sensor in env.report &&
                c.auxSensors[i].items[k - 1].lowerTemp <= env.report[c.auxSensors[i].sensor]
                  <= c.auxSensors[i].items[k - 1].upperTemp
      {
        assert c.auxSensors[i] in c.auxSensors;
      }
    }
  }

  lemma RateExactly(env: Env, t: SensorTable, k: nat)
    requires 1 <= k <= |t.items|
    ensures RateHolds(env, t, k, true) <==> RisesFast(env, t.sensor, t.items[k - 1].tempRiseRate)
    ensures RateHolds(env, t, k, false)
       <==> t.sensor in env.rates && !Cools(env, t.sensor, t.items[k - 1].tempRiseRate)
  {
    if RatesKnown(env, t.sensor) {
      var rs := env.rates[t.sensor];
      assert forall i | 0 <= i < |rs| :: rs[i] in rs;
      if rs != [] { assert rs[0] in rs; }
    }
  }

  lemma EntersExactly(c: Config, env: Env, t: SensorTable, temp: int, k: nat)
    requires Standard(c) && t in c.sensors && 1 <= k <= LevelCount(c)
    ensures Enters(c, env, t, temp, k - 1) <==> MayEnter(c, env, t, temp, k)
  {
    AuxExactly(c, env, k);
    RateExactly(env, t, k);
  }

  lemma KeepsExactly(c: Config, env: Env, t: SensorTable, temp: int, k: nat)
    requires Standard(c) && t in c.sensors && 1 <= k <= LevelCount(c)
    ensures Keeps(c, env, t, temp, k - 1) <==> !MustLeave(c, env, t, temp, k)
  {
    AuxExactly(c, env, k);
    RateExactly(env, t, k);
  }

  // ----- one sensor -----

  /** The trigger of the next level is reached, which sends the search upwards. */
  ghost predicate Upwards(c: Config, t: SensorTable, temp: int, level: nat) {
    level < |t.items| && TriggerReached(c, t, temp, level + 1)
  }

  lemma SensorEntersExactly(c: Config, env: Env, t: SensorTable, level: nat, k: nat)
    requires Standard(c) && t in c.sensors && t.sensor in env.report && level < k <= LevelCount(c)
    ensures SensorStep(c, env, t, level) >= k
       <==> forall j | level < j <= k :: MayEnter(c, env, t, env.report[t.sensor], j)
  {
    var temp := env.report[t.sensor];
    var s, r := SignalsOf(c, env, t, temp), SensorStep(c, env, t, level);
    forall j | level < j <= k ensures s.enter[j - 1] <==> MayEnter(c, env, t, temp, j) {
      EntersExactly(c, env, t, temp, j);
    }
    if r >= k {
      forall j | level < j <= k ensures MayEnter(c, env, t, temp, j) { assert s.enter[j - 1]; }
    } else if s.trigger[level] {
      assert !s.enter[r] && !MayEnter(c, env, t, temp, r + 1);
    } else {
      assert !s.enter[level] && !MayEnter(c, env, t, temp, level + 1);
    }
  }

  lemma SensorLeavesExactly(c: Config, env: Env, t: SensorTable, level: nat, k: nat)
    requires Standard(c) && t in c.sensors && t.sensor in env.report && 1 <= k <= level <= LevelCount(c)
    ensures SensorStep(c, env, t, level) < k
       <==> !Upwards(c, t, env.report[t.sensor], level) &&
            forall j | k <= j <= level :: MustLeave(c, env, t, env.report[t.sensor], j)
  {
    var temp := env.report[t.sensor];
    var s, r := SignalsOf(c, env, t, temp), SensorStep(c, env, t, level);
    assert Upwards(c, t, temp, level) <==> level < |s.trigger| && s.trigger[level];
    forall j | 1 <= j <= level ensures s.keep[j - 1] <==> !MustLeave(c, env, t, temp, j) {
      KeepsExactly(c, env, t, temp, j);
    }
    if r < k {
      forall j | k <= j <= level ensures MustLeave(c, env, t, temp, j) { assert !s.keep[j - 1]; }
    } else if r <= level && !Upwards(c, t, temp, level) {
      assert s.keep[r - 1] && !MustLeave(c, env, t, temp, r);
    }
  }

  // ----- a cluster -----

  ghost predicate ConditionsHold(c: Config, env: Env) { forall k | k in c.states :: (k, c.states[k]) in env.held }

  /** The maximum over the reported sensors, the level as it was if there is none, and 0 if a state
      condition fails. */
  lemma ClusterTakesTheHighest(c: Config, env: Env, level: nat, k: nat)
    requires Standard(c) && level <= LevelCount(c) && 1 <= k
    ensures !ConditionsHold(c, env) ==> ClusterStep(c, env, level) == 0
    ensures ConditionsHold(c, env) && !Reported(c, env) ==> ClusterStep(c, env, level) == level
    ensures ConditionsHold(c, env) && Reported(c, env) ==>
              (ClusterStep(c, env, level) >= k <==>
                 exists t :: t in c.sensors && t.sensor in env.report && SensorStep(c, env, t, level) >= k)
  {
    var n, r := |c.sensors|, ClusterStep(c, env, level);
    LevelsEmpty(c, env, level, n);
    if ConditionsHold(c, env) && Reported(c, env) {
      LevelsOnlyHave(c, env, level, n, r);
      var s :| 0 <= s < n && c.sensors[s].sensor in env.report && r == SensorStep(c, env, c.sensors[s], level);
      forall t | t in c.sensors && t.sensor in env.report ensures SensorStep(c, env, t, level) <= r {
        var i :| 0 <= i < n && c.sensors[i] == t;
        LevelsHave(c, env, level, n, i);
      }
    }
  }

  /** A level above the current one is entered exactly if the state conditions hold and some
      sensor reaches the trigger, and passes every gate, of each level up to it. */
  lemma EnteredExactly(c: Config, env: Env, level: nat, k: nat)
    requires Standard(c) && level < k <= LevelCount(c)
    ensures ClusterStep(c, env, level) >= k
       <==> ConditionsHold(c, env) &&
            exists t :: t in c.sensors && t.sensor in env.report &&
              forall j | level < j <= k :: MayEnter(c, env, t, env.report[t.sensor], j)
  {
    ClusterTakesTheHighest(c, env, level, k);
    forall t | t in c.sensors && t.sensor in env.report
      ensures SensorStep(c, env, t, level) >= k
         <==> forall j | level < j <= k :: MayEnter(c, env, t, env.report[t.sensor], j)
    {
      SensorEntersExactly(c, env, t, level, k);
    }
  }

  /** The sensor gives up level k and all levels from there to the current one. */
  ghost predicate GivesUp(c: Config, env: Env, t: SensorTable, level: nat, k: nat)
    requires Standard(c) && t in c.sensors && t.sensor in env.report && 1 <= k <= level <= LevelCount(c)
  {
    && !Upwards(c, t, env.report[t.sensor], level)
    && forall j | k <= j <= level :: MustLeave(c, env, t, env.report[t.sensor], j)
  }

  /** A level the cluster has is left exactly if a state condition fails, or there are readings and
      every sensor that reports gives it up: it does not reach the next trigger, and for each level
      down to k its clear is missed or a gate no longer holds. */
  lemma LeftExactly(c: Config, env: Env, level: nat, k: nat)
    requires Standard(c) && 1 <= k <= level <= LevelCount(c)
    ensures ClusterStep(c, env, level) < k
       <==> !ConditionsHold(c, env) ||
            (Reported(c, env) &&
             forall t | t in c.sensors && t.sensor in env.report :: GivesUp(c, env, t, level, k))
  {
    ClusterTakesTheHighest(c, env, level, k);
    forall t | t in c.sensors && t.sensor in env.report
      ensures SensorStep(c, env, t, level) < k <==> GivesUp(c, env, t, level, k)
    {
      SensorLeavesExactly(c, env, t, level, k);
    }
  }

  // ----- runs -----

  /** The report names a sensor of the cluster or fails one of its conditions. */
  ghost predicate Decisive(c: Config, env: Env) { Reported(c, env) || !ConditionsHold(c, env) }

  ghost function DecisiveOnly(c: Config, envs: seq<Env>): seq<Env> {
    if envs == [] then []
    else
      var env := envs[|envs| - 1];
      DecisiveOnly(c, envs[..|envs| - 1]) + if Decisive(c, env) then [env] else []
  }

  /** Other reports leave no trace: over any run the level is the one without them. */
  lemma {:induction false} OthersLeaveNoTrace(c: Config, envs: seq<Env>, level: nat)
    requires Standard(c) && level <= LevelCount(c)
    ensures ClusterRun(c, envs, level) == ClusterRun(c, DecisiveOnly(c, envs), level)
  {
    if envs != [] {
      var front, env := envs[..|envs| - 1], envs[|envs| - 1];
      var kept := DecisiveOnly(c, front);
      OthersLeaveNoTrace(c, front, level);
      if Decisive(c, env) {
        assert (kept + [env])[..|kept|] == kept;
      } else {
        ClusterTakesTheHighest(c, env, ClusterRun(c, front, level), 1);
        assert kept + [] == kept;
      }
    }
  }

  lemma RunSnoc(c: Config, before: seq<Env>, env: Env, level: nat)
    requires Standard(c) && level <= LevelCount(c)
    ensures ClusterRun(c, before + [env], level) == ClusterStep(c, env, ClusterRun(c, before, level))
  {
    assert (before + [env])[..|before|] == before;
  }

  ghost predicate EverFailed(c: Config, envs: seq<Env>) {
    envs != [] && (!ConditionsHold(c, envs[|envs| - 1]) || EverFailed(c, envs[..|envs| - 1]))
  }

  /** The reports after the last one that failed a condition. */
  ghost function SinceFailure(c: Config, envs: seq<Env>): seq<Env> {
    if envs == [] || !ConditionsHold(c, envs[|envs| - 1]) then []
    else SinceFailure(c, envs[..|envs| - 1]) + [envs[|envs| - 1]]
  }

  /** A failed condition starts the cluster anew: neither the start nor anything before it has any
      influence. */
  lemma {:induction false} FailedConditionForgets(c: Config, envs: seq<Env>, level: nat)
    requires Standard(c) && level <= LevelCount(c) && EverFailed(c, envs)
    ensures ClusterRun(c, envs, level) == ClusterRun(c, SinceFailure(c, envs), 0)
  {
    var front, env := envs[..|envs| - 1], envs[|envs| - 1];
    if ConditionsHold(c, env) {
      FailedConditionForgets(c, front, level);
      RunSnoc(c, SinceFailure(c, front), env, 0);
    } else {
      ClusterTakesTheHighest(c, env, ClusterRun(c, front, level), 1);
    }
  }

  /** Some sensor of this report passes the trigger and every gate of level k. */
  ghost predicate LetIn(c: Config, env: Env, k: nat)
    requires Standard(c) && 1 <= k <= LevelCount(c)
  {
    ConditionsHold(c, env) &&
    exists t :: t in c.sensors && t.sensor in env.report && MayEnter(c, env, t, env.report[t.sensor], k)
  }

  /** The report that took the cluster to level k or beyond, where it has been ever since. */
  function EntryReport(c: Config, envs: seq<Env>, level: nat, k: nat): (env: Env)
    requires Standard(c) && level <= LevelCount(c) && level < k <= ClusterRun(c, envs, level)
    ensures env in envs
  {
    var front := envs[..|envs| - 1];
    if ClusterRun(c, front, level) < k then envs[|envs| - 1] else EntryReport(c, front, level, k)
  }

  /** A level that was not there from the start has been entered through its own trigger and gates,
      at the report since which the cluster has never been below it. */
  lemma {:induction false} EnteredThroughItsGates(c: Config, envs: seq<Env>, level: nat, k: nat)
    requires Standard(c) && level < k <= LevelCount(c) && ClusterRun(c, envs, level) >= k
    ensures LetIn(c, EntryReport(c, envs, level, k), k)
  {
    var front := envs[..|envs| - 1];
    if ClusterRun(c, front, level) < k {
      EnteredExactly(c, envs[|envs| - 1], ClusterRun(c, front, level), k);
    } else {
      EnteredThroughItsGates(c, front, level, k);
    }
  }
}
