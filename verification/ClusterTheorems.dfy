/** What a sensor cluster does over one report and over whole runs. */
module ClusterTheorems {
  import opened Hysteresis
  import opened ClusterSpec
  import opened Sorting

  // ----- sorted and ungated configurations -----

  /** Bound `a` is reached whenever bound `b` is. */
  predicate NoLaterThan(desc: bool, a: int, b: int) { Reaches(desc, b, a) }

  ghost predicate ClearsBeforeTriggers(c: Config) {
    forall s, k | 0 <= s < |c.sensors| && 0 <= k < |c.sensors[s].items| ::
      NoLaterThan(c.desc, c.sensors[s].items[k].thresholdClr, c.sensors[s].items[k].threshold)
  }

  ghost predicate SortedItems(desc: bool, items: seq<LevelItem>) {
    forall i, j | 0 <= i < j < |items| ::
      && NoLaterThan(desc, items[i].threshold, items[j].threshold)
      && NoLaterThan(desc, items[i].thresholdClr, items[j].thresholdClr)
  }

  ghost predicate Sorted(c: Config) {
    && ClearsBeforeTriggers(c)
    && forall s | 0 <= s < |c.sensors| :: SortedItems(c.desc, c.sensors[s].items)
  }

  ghost predicate Ungated(c: Config) { !c.aux && !c.rate && !c.tempDiff }

  function WithoutGates(c: Config): Config { c.(aux := false, rate := false, tempDiff := false) }

  ghost predicate Reported(c: Config, env: Env) {
    exists s | 0 <= s < |c.sensors| :: c.sensors[s].sensor in env.report
  }

  lemma SortedUngatedIsPlain(c: Config, env: Env, t: SensorTable, temp: int)
    requires Standard(c) && Sorted(c) && Ungated(c) && t in c.sensors
    ensures Plain(SignalsOf(c, env, t, temp))
  {}

  // ----- one report is a clamp -----

  /** How many of the bounds the temperature has reached. */
  function CountReached(desc: bool, bounds: seq<int>, temp: int): (n: nat)
    ensures n <= |bounds|
  {
    if bounds == [] then 0
    else CountReached(desc, bounds[..|bounds| - 1], temp) +
         if Reaches(desc, temp, bounds[|bounds| - 1]) then 1 else 0
  }

  function Triggers(t: SensorTable): seq<int> {
    seq(|t.items|, k requires 0 <= k < |t.items| => t.items[k].threshold)
  }

  function Clears(t: SensorTable): seq<int> {
    seq(|t.items|, k requires 0 <= k < |t.items| => t.items[k].thresholdClr)
  }

  /** The largest number of triggers any of the first `k` reported sensors has reached. */
  function MostTriggers(c: Config, env: Env, k: nat): nat
    requires k <= |c.sensors|
  {
    if k == 0 then 0
    else
      var t := c.sensors[k - 1];
      var rest := MostTriggers(c, env, k - 1);
      if t.sensor in env.report then Max(rest, CountReached(c.desc, Triggers(t), env.report[t.sensor])) else rest
  }

  function MostClears(c: Config, env: Env, k: nat): nat
    requires k <= |c.sensors|
  {
    if k == 0 then 0
    else
      var t := c.sensors[k - 1];
      var rest := MostClears(c, env, k - 1);
      if t.sensor in env.report then Max(rest, CountReached(c.desc, Clears(t), env.report[t.sensor])) else rest
  }

  lemma {:induction false} CountMatches(desc: bool, bounds: seq<int>, temp: int, bs: seq<bool>)
    requires |bs| == |bounds|
    requires forall k | 0 <= k < |bs| :: bs[k] <==> Reaches(desc, temp, bounds[k])
    ensures CountReached(desc, bounds, temp) == Count(bs)
  {
    if bs != [] { CountMatches(desc, bounds[..|bounds| - 1], temp, bs[..|bs| - 1]); }
  }

  lemma SensorStepIsClamp(c: Config, env: Env, t: SensorTable, level: nat)
    requires Standard(c) && Sorted(c) && Ungated(c) && t in c.sensors && t.sensor in env.report
    requires level <= LevelCount(c)
    ensures var temp := env.report[t.sensor];
            var up, down := CountReached(c.desc, Triggers(t), temp), CountReached(c.desc, Clears(t), temp);
            up <= down && SensorStep(c, env, t, level) == Clamp(up, down, level)
  {
    var temp := env.report[t.sensor];
    var s := SignalsOf(c, env, t, temp);
    SortedUngatedIsPlain(c, env, t, temp);
    PlainStepIsClamp(s, level);
    CountMatches(c.desc, Triggers(t), temp, s.trigger);
    CountMatches(c.desc, Clears(t), temp, s.keep);
  }

  lemma MaxOfSnoc(ls: seq<nat>, x: nat)
    requires ls != []
    ensures MaxOf(ls + [x]) == Max(MaxOf(ls), x)
  {}

  lemma ClampOfMax(u: nat, d: nat, u': nat, d': nat, level: nat)
    requires u <= d && u' <= d'
    ensures Max(Clamp(u, d, level), Clamp(u', d', level)) == Clamp(Max(u, u'), Max(d, d'), level)
  {}

  lemma {:induction false} LevelsEmpty(c: Config, env: Env, level: nat, k: nat)
    requires Standard(c) && level <= LevelCount(c) && k <= |c.sensors|
    ensures Levels(c, env, level, k) == [] <==> forall s | 0 <= s < k :: c.sensors[s].sensor !in env.report
  {
    if k > 0 { LevelsEmpty(c, env, level, k - 1); }
  }

  lemma ClampSnoc(ls: seq<nat>, x: nat, u: nat, d: nat, u': nat, d': nat, level: nat)
    requires u <= d && u' <= d' && x == Clamp(u', d', level)
    requires if ls == [] then u == d == 0 else MaxOf(ls) == Clamp(u, d, level)
    ensures MaxOf(ls + [x]) == Clamp(Max(u, u'), Max(d, d'), level)
  {
    if ls == [] {
      assert ls + [x] == [x];
    } else {
      MaxOfSnoc(ls, x);
      ClampOfMax(u, d, u', d', level);
    }
  }

  lemma {:induction false} LevelsClamp(c: Config, env: Env, level: nat, k: nat)
    requires Standard(c) && Sorted(c) && Ungated(c) && level <= LevelCount(c) && k <= |c.sensors|
    ensures MostTriggers(c, env, k) <= MostClears(c, env, k)
    ensures Levels(c, env, level, k) != [] ==>
              MaxOf(Levels(c, env, level, k)) == Clamp(MostTriggers(c, env, k), MostClears(c, env, k), level)
  {
    if k > 0 {
      LevelsClamp(c, env, level, k - 1);
      var t, ls := c.sensors[k - 1], Levels(c, env, level, k - 1);
      if t.sensor in env.report {
        if ls == [] {
          LevelsEmpty(c, env, level, k - 1);
          NoneReported(c, env, k - 1);
        }
        LevelsClampStep(c, env, level, k);
      }
    }
  }

  lemma LevelsClampStep(c: Config, env: Env, level: nat, k: nat)
    requires Standard(c) && Sorted(c) && Ungated(c) && level <= LevelCount(c) && 0 < k <= |c.sensors|
    requires c.sensors[k - 1].sensor in env.report
    requires var ls, u, d := Levels(c, env, level, k - 1), MostTriggers(c, env, k - 1), MostClears(c, env, k - 1);
             u <= d && if ls == [] then u == d == 0 else MaxOf(ls) == Clamp(u, d, level)
    ensures MostTriggers(c, env, k) <= MostClears(c, env, k)
    ensures MaxOf(Levels(c, env, level, k)) == Clamp(MostTriggers(c, env, k), MostClears(c, env, k), level)
  {
    var t := c.sensors[k - 1];
    var temp := env.report[t.sensor];
    SensorStepIsClamp(c, env, t, level);
    var up, down := CountReached(c.desc, Triggers(t), temp), CountReached(c.desc, Clears(t), temp);
    assert Levels(c, env, level, k) == Levels(c, env, level, k - 1) + [SensorStep(c, env, t, level)];
    assert MostTriggers(c, env, k) == Max(MostTriggers(c, env, k - 1), up);
    assert MostClears(c, env, k) == Max(MostClears(c, env, k - 1), down);
    ClampSnoc(Levels(c, env, level, k - 1), SensorStep(c, env, t, level),
              MostTriggers(c, env, k - 1), MostClears(c, env, k - 1), up, down, level);
  }

  lemma {:induction false} NoneReported(c: Config, env: Env, k: nat)
    requires k <= |c.sensors|
    requires forall s | 0 <= s < k :: c.sensors[s].sensor !in env.report
    ensures MostTriggers(c, env, k) == MostClears(c, env, k) == 0
  {
    if k > 0 { NoneReported(c, env, k - 1); }
  }

  /** A sorted cluster without gates clamps its level between two counts. A cluster of several
      sensors therefore behaves like one sensor that has reached the largest number of triggers
      and the largest number of clears any of them has reached. */
  lemma ClusterStepIsClamp(c: Config, env: Env, level: nat)
    requires Standard(c) && Sorted(c) && Ungated(c) && level <= LevelCount(c)
    requires StateHolds(c.states, env.held) && Reported(c, env)
    ensures ClusterStep(c, env, level)
         == Max(MostTriggers(c, env, |c.sensors|), Min(level, MostClears(c, env, |c.sensors|)))
  {
    LevelsEmpty(c, env, level, |c.sensors|);
    LevelsClamp(c, env, level, |c.sensors|);
  }

  // ----- hotter reports never lower the level -----

  /** The same sensors report, each at least as far along the table. */
  ghost predicate Hotter(c: Config, cool: Env, hot: Env) {
    && hot.held == cool.held
    && forall s | 0 <= s < |c.sensors| ::
         var name := c.sensors[s].sensor;
         && (name in hot.report <==> name in cool.report)
         && (name in hot.report ==> Reaches(c.desc, hot.report[name], cool.report[name]))
  }

  lemma {:induction false} CountReachedMonotone(desc: bool, bounds: seq<int>, cool: int, hot: int)
    requires Reaches(desc, hot, cool)
    ensures CountReached(desc, bounds, cool) <= CountReached(desc, bounds, hot)
  {
    if bounds != [] { CountReachedMonotone(desc, bounds[..|bounds| - 1], cool, hot); }
  }

  lemma {:induction false} MostMonotone(c: Config, cool: Env, hot: Env, k: nat)
    requires Hotter(c, cool, hot) && k <= |c.sensors|
    ensures MostTriggers(c, cool, k) <= MostTriggers(c, hot, k)
    ensures MostClears(c, cool, k) <= MostClears(c, hot, k)
  {
    if k > 0 {
      MostMonotone(c, cool, hot, k - 1);
      var t := c.sensors[k - 1];
      if t.sensor in hot.report {
        CountReachedMonotone(c.desc, Triggers(t), cool.report[t.sensor], hot.report[t.sensor]);
        CountReachedMonotone(c.desc, Clears(t), cool.report[t.sensor], hot.report[t.sensor]);
      }
    }
  }

  lemma ClusterStepMonotone(c: Config, cool: Env, hot: Env, lower: nat, upper: nat)
    requires Standard(c) && Sorted(c) && Ungated(c) && Hotter(c, cool, hot)
    requires lower <= upper <= LevelCount(c)
    ensures ClusterStep(c, cool, lower) <= ClusterStep(c, hot, upper)
  {
    LevelsEmpty(c, cool, lower, |c.sensors|);
    LevelsEmpty(c, hot, upper, |c.sensors|);
    LevelsClamp(c, cool, lower, |c.sensors|);
    LevelsClamp(c, hot, upper, |c.sensors|);
    MostMonotone(c, cool, hot, |c.sensors|);
  }

  // ----- gates only ever hold a cluster back -----

  lemma GatedSensorBelowUngated(c: Config, env: Env, t: SensorTable, lower: nat, upper: nat)
    requires Standard(c) && Sorted(c) && t in c.sensors && t.sensor in env.report
    requires lower <= upper <= LevelCount(c)
    ensures SensorStep(c, env, t, lower) <= SensorStep(WithoutGates(c), env, t, upper)
  {
    var temp, free := env.report[t.sensor], WithoutGates(c);
    SortedUngatedIsPlain(free, env, t, temp);
    assert SignalsOf(c, env, t, temp).trigger == SignalsOf(free, env, t, temp).trigger;
    GatedStepIsDominated(SignalsOf(c, env, t, temp), SignalsOf(free, env, t, temp), lower, upper);
  }

  lemma {:induction false} GatedLevelsBelowUngated(c: Config, env: Env, lower: nat, upper: nat, k: nat)
    requires Standard(c) && Sorted(c) && lower <= upper <= LevelCount(c) && k <= |c.sensors|
    ensures |Levels(c, env, lower, k)| == |Levels(WithoutGates(c), env, upper, k)|
    ensures Levels(c, env, lower, k) != [] ==>
              MaxOf(Levels(c, env, lower, k)) <= MaxOf(Levels(WithoutGates(c), env, upper, k))
  {
    if k > 0 {
      GatedLevelsBelowUngated(c, env, lower, upper, k - 1);
      var t := c.sensors[k - 1];
      if t.sensor in env.report {
        GatedSensorBelowUngated(c, env, t, lower, upper);
        MaxOfBoth(Levels(c, env, lower, k - 1), Levels(WithoutGates(c), env, upper, k - 1),
                  SensorStep(c, env, t, lower), SensorStep(WithoutGates(c), env, t, upper));
      }
    }
  }

  lemma MaxOfBoth(ls: seq<nat>, us: seq<nat>, x: nat, y: nat)
    requires |ls| == |us| && x <= y && (ls != [] ==> MaxOf(ls) <= MaxOf(us))
    ensures MaxOf(ls + [x]) <= MaxOf(us + [y])
  {}

  /** Over any run from a common start level, the gated cluster never sits above the sorted
      cluster with its gates switched off. */
  lemma {:induction false} GatedRunNeverAbove(c: Config, envs: seq<Env>, level: nat)
    requires Standard(c) && Sorted(c) && level <= LevelCount(c)
    ensures ClusterRun(c, envs, level) <= ClusterRun(WithoutGates(c), envs, level)
  {
    if envs != [] {
      var before, env := envs[..|envs| - 1], envs[|envs| - 1];
      GatedRunNeverAbove(c, before, level);
      GatedLevelsBelowUngated(c, env, ClusterRun(c, before, level),
                              ClusterRun(WithoutGates(c), before, level), |c.sensors|);
    }
  }

  // ----- reapplying a report with gates on -----

  /** The gate for entering a level is at least as strict as the gate for staying in it: a
      critical rate trend is never an ideal one. */
  lemma EntryImpliesKeep(c: Config, env: Env, t: SensorTable, level: nat)
    requires Standard(c) && t in c.sensors && level <= LevelCount(c)
    requires ExtraCondition(c, env, t, level, true)
    ensures ExtraCondition(c, env, t, level, false)
  {}

  lemma SensorStepIdempotent(c: Config, env: Env, t: SensorTable, level: nat)
    requires Standard(c) && ClearsBeforeTriggers(c) && t in c.sensors && t.sensor in env.report
    requires level <= LevelCount(c)
    ensures SensorStep(c, env, t, SensorStep(c, env, t, level)) == SensorStep(c, env, t, level)
  {
    var i :| 0 <= i < |c.sensors| && c.sensors[i] == t;
    var s := SignalsOf(c, env, t, env.report[t.sensor]);
    forall k | 0 <= k < |s.enter| && s.enter[k] ensures s.keep[k] {
      EntryImpliesKeep(c, env, t, k + 1);
    }
    StepIdempotent(s, level);
  }

  /** Some reported sensor may climb out of this level: the guard of the climbing branch holds. */
  ghost predicate MayClimb(c: Config, env: Env, level: nat)
    requires Standard(c)
  {
    StateHolds(c.states, env.held) && level < LevelCount(c) &&
    exists s | 0 <= s < |c.sensors| :: SensorMayClimb(c, env, c.sensors[s], level)
  }

  predicate SensorMayClimb(c: Config, env: Env, t: SensorTable, level: nat)
    requires Standard(c) && t in c.sensors && level < LevelCount(c)
  {
    t.sensor in env.report && Enters(c, env, t, env.report[t.sensor], level)
  }

  lemma {:induction false} LevelsHave(c: Config, env: Env, level: nat, k: nat, s: nat)
    requires Standard(c) && level <= LevelCount(c) && s < k <= |c.sensors| && c.sensors[s].sensor in env.report
    ensures SensorStep(c, env, c.sensors[s], level) in Levels(c, env, level, k)
  {
    if s < k - 1 {
      LevelsHave(c, env, level, k - 1, s);
    } else {
      assert Levels(c, env, level, k) == Levels(c, env, level, k - 1) + [SensorStep(c, env, c.sensors[s], level)];
    }
  }

  lemma {:induction false} LevelsOnlyHave(c: Config, env: Env, level: nat, k: nat, r: nat)
    requires Standard(c) && level <= LevelCount(c) && k <= |c.sensors| && r in Levels(c, env, level, k)
    ensures exists s | 0 <= s < k :: c.sensors[s].sensor in env.report && r == SensorStep(c, env, c.sensors[s], level)
  {
    var t := c.sensors[k - 1];
    if !(t.sensor in env.report && r == SensorStep(c, env, t, level)) {
      LevelsOnlyHave(c, env, level, k - 1, r);
    }
  }

  /** A sensor climbs out of a level exactly if it may enter the next one. */
  lemma ClimbsExactly(c: Config, env: Env, t: SensorTable, level: nat)
    requires Standard(c) && t in c.sensors && t.sensor in env.report && level <= LevelCount(c)
    ensures SensorStep(c, env, t, level) > level <==> level < LevelCount(c) && SensorMayClimb(c, env, t, level)
  {
    var s := SignalsOf(c, env, t, env.report[t.sensor]);
    if level < LevelCount(c) { assert s.enter[level] <==> SensorMayClimb(c, env, t, level); }
  }

  /** Some sensor stays at the level the cluster has stepped to. */
  lemma ReachedByASensor(c: Config, env: Env, level: nat)
    requires Standard(c) && ClearsBeforeTriggers(c) && level <= LevelCount(c)
    requires StateHolds(c.states, env.held) && Levels(c, env, level, |c.sensors|) != []
    ensures var r := ClusterStep(c, env, level);
            Levels(c, env, r, |c.sensors|) != [] && r in Levels(c, env, r, |c.sensors|)
  {
    var r, n := ClusterStep(c, env, level), |c.sensors|;
    LevelsOnlyHave(c, env, level, n, r);
    var s :| 0 <= s < n && c.sensors[s].sensor in env.report && r == SensorStep(c, env, c.sensors[s], level);
    SensorStepIdempotent(c, env, c.sensors[s], level);
    LevelsHave(c, env, r, n, s);
  }

  /** With any gates, any number of sensors and thresholds in any order, reapplying a report moves
      the cluster on exactly if some reported sensor may climb out of the level it is now at. */
  lemma RepeatsExactly(c: Config, env: Env, level: nat)
    requires Standard(c) && ClearsBeforeTriggers(c) && level <= LevelCount(c)
    ensures var r := ClusterStep(c, env, level); ClusterStep(c, env, r) == r <==> !MayClimb(c, env, r)
  {
    var r, n := ClusterStep(c, env, level), |c.sensors|;
    LevelsEmpty(c, env, level, n);
    LevelsEmpty(c, env, r, n);
    if StateHolds(c.states, env.held) && Levels(c, env, level, n) != [] {
      ReachedByASensor(c, env, level);
      if MayClimb(c, env, r) {
        var s :| 0 <= s < n && SensorMayClimb(c, env, c.sensors[s], r);
        ClimbsExactly(c, env, c.sensors[s], r);
        LevelsHave(c, env, r, n, s);
      } else {
        var m := MaxOf(Levels(c, env, r, n));
        LevelsOnlyHave(c, env, r, n, m);
        var s :| 0 <= s < n && c.sensors[s].sensor in env.report && m == SensorStep(c, env, c.sensors[s], r);
        ClimbsExactly(c, env, c.sensors[s], r);
      }
    }
  }

  /** The level after n applications of one report. */
  function Repeated(c: Config, env: Env, level: nat, n: nat): (r: nat)
    requires Standard(c) && level <= LevelCount(c)
    ensures r <= LevelCount(c)
  {
    if n == 0 then level else ClusterStep(c, env, Repeated(c, env, level, n - 1))
  }

  lemma RepeatingNeverFalls(c: Config, env: Env, level: nat)
    requires Standard(c) && ClearsBeforeTriggers(c) && level <= LevelCount(c)
    ensures var r := ClusterStep(c, env, level); ClusterStep(c, env, r) >= r
  {
    var r, n := ClusterStep(c, env, level), |c.sensors|;
    LevelsEmpty(c, env, level, n);
    LevelsEmpty(c, env, r, n);
    if StateHolds(c.states, env.held) && Levels(c, env, level, n) != [] { ReachedByASensor(c, env, level); }
  }

  /** Every application that is not the last to move the level lifts it. */
  lemma {:induction false} SettledOrLifted(c: Config, env: Env, level: nat, n: nat)
    requires Standard(c) && ClearsBeforeTriggers(c) && level <= LevelCount(c)
    ensures var r := Repeated(c, env, level, n + 1); ClusterStep(c, env, r) == r || r >= n
  {
    if n > 0 {
      SettledOrLifted(c, env, level, n - 1);
      RepeatingNeverFalls(c, env, Repeated(c, env, level, n - 1));
    }
  }

  /** A report that keeps coming settles any cluster, after at most one application more than it
      has levels. */
  lemma RepeatingSettles(c: Config, env: Env, level: nat, n: nat)
    requires Standard(c) && ClearsBeforeTriggers(c) && level <= LevelCount(c) && n > LevelCount(c)
    ensures Repeated(c, env, level, n + 1) == Repeated(c, env, level, n)
  {
    SettledOrLifted(c, env, level, n - 1);
    RepeatingNeverFalls(c, env, Repeated(c, env, level, n - 1));
  }

  /** A sensor does not climb out of the level it has just stepped to. */
  lemma SteppedSensorStays(c: Config, env: Env, t: SensorTable, level: nat)
    requires Standard(c) && ClearsBeforeTriggers(c) && t in c.sensors && t.sensor in env.report
    requires level <= LevelCount(c)
    ensures var r := SensorStep(c, env, t, level); r < LevelCount(c) ==> !SensorMayClimb(c, env, t, r)
  {
    SensorStepIdempotent(c, env, t, level);
    ClimbsExactly(c, env, t, SensorStep(c, env, t, level));
  }

  /** So reapplying a report leaves a cluster of one sensor where it is, whatever its gates. */
  lemma SingleSensorClusterIdempotent(c: Config, env: Env, level: nat)
    requires Standard(c) && ClearsBeforeTriggers(c) && |c.sensors| == 1 && level <= LevelCount(c)
    ensures ClusterStep(c, env, ClusterStep(c, env, level)) == ClusterStep(c, env, level)
  {
    var t := c.sensors[0];
    OneSensorLevels(c, env, level);
    if t.sensor in env.report { SteppedSensorStays(c, env, t, level); }
    RepeatsExactly(c, env, level);
  }

  /** And a sorted cluster without gates, whatever the number of its sensors. */
  lemma UngatedClusterIdempotent(c: Config, env: Env, level: nat)
    requires Standard(c) && Sorted(c) && Ungated(c) && level <= LevelCount(c)
    ensures ClusterStep(c, env, ClusterStep(c, env, level)) == ClusterStep(c, env, level)
  {
    var r := ClusterStep(c, env, level);
    RepeatsExactly(c, env, level);
    if MayClimb(c, env, r) {
      var s :| 0 <= s < |c.sensors| && SensorMayClimb(c, env, c.sensors[s], r);
      LevelsHave(c, env, level, |c.sensors|, s);
      UngatedSensorRepeats(c, env, c.sensors[s], level, r);
    }
  }

  /** In a sorted table without gates, no level at or above the one stepped to may be climbed out of. */
  lemma UngatedSensorRepeats(c: Config, env: Env, t: SensorTable, level: nat, r: nat)
    requires Standard(c) && Sorted(c) && Ungated(c) && t in c.sensors && t.sensor in env.report
    requires level <= LevelCount(c) && SensorStep(c, env, t, level) <= r < LevelCount(c)
    ensures !SensorMayClimb(c, env, t, r)
  {
    var s := SignalsOf(c, env, t, env.report[t.sensor]);
    SortedUngatedIsPlain(c, env, t, env.report[t.sensor]);
    PlainStepIsClamp(s, level);
    CountIsPrefix(s.trigger, r);
    assert s.enter[r] <==> SensorMayClimb(c, env, t, r);
  }

  lemma OneSensorLevels(c: Config, env: Env, level: nat)
    requires Standard(c) && |c.sensors| == 1 && level <= LevelCount(c)
    ensures var t := c.sensors[0];
            Levels(c, env, level, 1) == if t.sensor in env.report then [SensorStep(c, env, t, level)] else []
  {}

  /** With two sensors it does happen: one sensor can lift the shared level past the step that
      blocks the other, which then climbs on when the very same report is applied again. */
  lemma GatedClusterNotIdempotent()
    ensures exists c, env, level: nat ::
              && Standard(c) && Sorted(c) && level <= LevelCount(c)
              && ClusterStep(c, env, ClusterStep(c, env, level)) != ClusterStep(c, env, level)
  {
    var c, env := ClusterMovesTwice();
  }

  lemma ClusterMovesTwice() returns (c: Config, env: Env)
    ensures Standard(c) && Sorted(c) && LevelCount(c) == 2
    ensures ClusterStep(c, env, 0) == 1 && ClusterStep(c, env, 1) == 2
  {
    c := TwoSensors();
    env := Env(map["a" := 30, "b" := 15], map["a" := [1.0], "b" := [5.0]], 1, {});
    BlockedSensor(c, env);
    LiftingSensor(c, env);
    TwoLevels(c, env, 0);
    TwoLevels(c, env, 1);
  }

  /** The gate of level 1 blocks sensor a, which would pass the gate of level 2. */
  lemma BlockedSensor(c: Config, env: Env)
    requires c == TwoSensors() && env.rateCount == 1
    requires "a" in env.report && env.report["a"] == 30 && "a" in env.rates && env.rates["a"] == [1.0]
    ensures SensorStep(c, env, c.sensors[0], 0) == 0 && SensorStep(c, env, c.sensors[0], 1) == 2
  {
    var s := SignalsOf(c, env, c.sensors[0], 30);
    RateGate(c, env, c.sensors[0], 1, 1.0);
    RateGate(c, env, c.sensors[0], 2, 1.0);
    assert s.trigger[0] && !s.enter[0] && s.trigger[1] && s.enter[1];
  }

  lemma LiftingSensor(c: Config, env: Env)
    requires c == TwoSensors() && env.rateCount == 1
    requires "b" in env.report && env.report["b"] == 15 && "b" in env.rates && env.rates["b"] == [5.0]
    ensures SensorStep(c, env, c.sensors[1], 0) == 1
  {
    var s := SignalsOf(c, env, c.sensors[1], 15);
    RateGate(c, env, c.sensors[1], 1, 5.0);
    assert s.enter[0] && !s.enter[1];
  }

  lemma RateGate(c: Config, env: Env, t: SensorTable, level: nat, rate: real)
    requires Standard(c) && t in c.sensors && c.rate && !c.aux && !c.tempDiff
    requires t.sensor in env.rates && env.rates[t.sensor] == [rate] && env.rateCount == 1
    requires 1 <= level <= LevelCount(c) && t.items[level - 1].tempRiseRate >= 0.0
    ensures ExtraCondition(c, env, t, level, true) <==> rate >= t.items[level - 1].tempRiseRate
  {
    assert env.rates[t.sensor][0] == rate;
  }

  function TwoSensors(): (c: Config)
    ensures Standard(c) && Sorted(c) && c.rate && !c.aux && !c.tempDiff && !c.desc && c.states == map[]
    ensures |c.sensors| == 2
    ensures c.sensors[0] == SensorTable("a", [LevelItem(10, 10, 2.0, 1), LevelItem(20, 20, 0.5, 2)])
    ensures c.sensors[1] == SensorTable("b", [LevelItem(10, 10, 1.0, 1), LevelItem(20, 20, 1.0, 2)])
  {
    var a := SensorTable("a", [LevelItem(10, 10, 2.0, 1), LevelItem(20, 20, 0.5, 2)]);
    var b := SensorTable("b", [LevelItem(10, 10, 1.0, 1), LevelItem(20, 20, 1.0, 2)]);
    assert Numbered(a.items) && Numbered(b.items);
    Config(false, false, true, false, [a, b], [], [], map[])
  }

  lemma TwoLevels(c: Config, env: Env, level: nat)
    requires Standard(c) && |c.sensors| == 2 && c.states == map[] && level <= LevelCount(c)
    requires c.sensors[0].sensor in env.report && c.sensors[1].sensor in env.report
    ensures ClusterStep(c, env, level)
         == Max(SensorStep(c, env, c.sensors[0], level), SensorStep(c, env, c.sensors[1], level))
  {
    var x, y := SensorStep(c, env, c.sensors[0], level), SensorStep(c, env, c.sensors[1], level);
    assert Levels(c, env, level, 0) == [];
    assert Levels(c, env, level, 1) == [x];
    assert Levels(c, env, level, 2) == [x] + [y];
    MaxOfSnoc([x], y);
  }

  // ----- the temp-diff entry a query reads -----

  /** When the configured temp-diff levels are 1..n in any order, the entry a query for level
      k reads is the one configured for level k. */
  lemma QueryReadsItsLevel(s: seq<TempDiffItem>, k: nat)
    requires DistinctKeys(s, DiffLevel) && (forall i | 0 <= i < |s| :: 1 <= s[i].level <= |s|)
    requires 1 <= k <= |s|
    ensures SortDiffs(s)[k - 1].level == k && SortDiffs(s)[k - 1] in s
  {
    var r := SortDiffs(s);
    SortSorts(s, DiffLevel);
    SortKeepsDistinct(s, DiffLevel);
    forall i | 0 <= i < |r| ensures r[i] in s { SortMembers(s, DiffLevel, r[i]); }
    RoomBelow(r, k - 1);
    RoomAbove(r, k - 1);
  }

  /** Every query reads the entry of its own level exactly if the configured levels are 1..n, in any
      order; the configuration check counts the entries but does not look at their levels. */
  lemma QueriesReadTheirLevelsExactly(s: seq<TempDiffItem>)
    ensures (forall i | 0 <= i < |s| :: SortDiffs(s)[i].level == i + 1)
       <==> DistinctKeys(s, DiffLevel) && forall i | 0 <= i < |s| :: 1 <= s[i].level <= |s|
  {
    var r := SortDiffs(s);
    if forall i | 0 <= i < |s| :: r[i].level == i + 1 {
      assert DistinctKeys(r, DiffLevel);
      SortReflectsDistinct(s, DiffLevel);
      forall i | 0 <= i < |s| ensures 1 <= s[i].level <= |s| {
        SortMembers(s, DiffLevel, s[i]);
        var j :| 0 <= j < |r| && r[j] == s[i];
      }
    }
    if DistinctKeys(s, DiffLevel) && forall i | 0 <= i < |s| :: 1 <= s[i].level <= |s| {
      forall i | 0 <= i < |s| ensures r[i].level == i + 1 { QueryReadsItsLevel(s, i + 1); }
    }
  }

  lemma {:induction false} RoomBelow(r: seq<TempDiffItem>, i: nat)
    requires Ordered(r, DiffLevel) && DistinctKeys(r, DiffLevel) && i < |r|
    requires forall j | 0 <= j < |r| :: 1 <= r[j].level
    ensures r[i].level >= i + 1
  {
    if i > 0 { RoomBelow(r, i - 1); assert DiffLevel(r[i - 1]) < DiffLevel(r[i]); }
  }

  lemma {:induction false} RoomAbove(r: seq<TempDiffItem>, i: nat)
    requires Ordered(r, DiffLevel) && DistinctKeys(r, DiffLevel) && i < |r|
    requires forall j | 0 <= j < |r| :: r[j].level <= |r|
    ensures r[i].level <= i + 1
    decreases |r| - i
  {
    if i + 1 < |r| { RoomAbove(r, i + 1); assert DiffLevel(r[i]) < DiffLevel(r[i + 1]); }
  }

  // ----- a descending cluster is a mirrored ascending one -----

  function MirrorItems(items: seq<LevelItem>): (r: seq<LevelItem>)
    ensures |r| == |items|
    ensures forall k | 0 <= k < |r| ::
              r[k] == items[k].(threshold := -items[k].threshold, thresholdClr := -items[k].thresholdClr)
  {
    seq(|items|, k requires 0 <= k < |items| =>
      items[k].(threshold := -items[k].threshold, thresholdClr := -items[k].thresholdClr))
  }

  function MirrorTable(t: SensorTable): SensorTable { t.(items := MirrorItems(t.items)) }

  function MirrorTables(ts: seq<SensorTable>): (r: seq<SensorTable>)
    ensures |r| == |ts| && forall k | 0 <= k < |r| :: r[k] == MirrorTable(ts[k])
  {
    seq(|ts|, k requires 0 <= k < |ts| => MirrorTable(ts[k]))
  }

  /** Negated ranges, with their ends exchanged. */
  function MirrorRanges(items: seq<AuxLevelItem>): (r: seq<AuxLevelItem>)
    ensures |r| == |items|
    ensures forall k | 0 <= k < |r| :: r[k] == AuxLevelItem(-items[k].upperTemp, -items[k].lowerTemp)
  {
    seq(|items|, k requires 0 <= k < |items| => AuxLevelItem(-items[k].upperTemp, -items[k].lowerTemp))
  }

  function MirrorAux(ts: seq<AuxTable>): (r: seq<AuxTable>)
    ensures |r| == |ts| && forall k | 0 <= k < |r| :: r[k] == ts[k].(items := MirrorRanges(ts[k].items))
  {
    seq(|ts|, k requires 0 <= k < |ts| => ts[k].(items := MirrorRanges(ts[k].items)))
  }

  /** Differences with their two sensors exchanged. */
  function MirrorDiffs(ds: seq<TempDiffItem>): (r: seq<TempDiffItem>)
    ensures |r| == |ds|
    ensures forall k | 0 <= k < |r| :: r[k] == ds[k].(sensor1 := ds[k].sensor2, sensor2 := ds[k].sensor1)
  {
    seq(|ds|, k requires 0 <= k < |ds| => ds[k].(sensor1 := ds[k].sensor2, sensor2 := ds[k].sensor1))
  }

  /** The cluster that a descending one is in terms of negated temperatures, and the other way round. */
  function Mirror(c: Config): Config {
    c.(desc := !c.desc, sensors := MirrorTables(c.sensors), auxSensors := MirrorAux(c.auxSensors),
       diffs := MirrorDiffs(c.diffs))
  }

  /** The same report with every temperature negated. */
  ghost predicate Mirrors(env: Env, env': Env) {
    && env'.rates == env.rates && env'.rateCount == env.rateCount && env'.held == env.held
    && env'.report.Keys == env.report.Keys
    && forall s | s in env.report :: env'.report[s] == -env.report[s]
  }

  lemma MirrorIsStandard(c: Config)
    requires Standard(c)
    ensures Standard(Mirror(c)) && LevelCount(Mirror(c)) == LevelCount(c)
  {}

  lemma MirrorAuxHolds(c: Config, env: Env, env': Env, level: nat)
    requires Standard(c) && Standard(Mirror(c)) && Mirrors(env, env') && level <= LevelCount(c)
    ensures AuxHolds(Mirror(c), env', level) <==> AuxHolds(c, env, level)
  {
    var m := Mirror(c);
    assert forall i | 0 <= i < |c.auxSensors| :: m.auxSensors[i].sensor == c.auxSensors[i].sensor;
    if level > 0 {
      forall i | 0 <= i < |c.auxSensors| && c.auxSensors[i].sensor in env.report
        ensures var x, y, temp := c.auxSensors[i].items[level - 1], m.auxSensors[i].items[level - 1],
                                  env.report[c.auxSensors[i].sensor];
                y.lowerTemp <= -temp <= y.upperTemp <==> x.lowerTemp <= temp <= x.upperTemp
      {}
    }
  }

  lemma MirrorExtra(c: Config, env: Env, env': Env, t: SensorTable, level: nat, isCritical: bool)
    requires Standard(c) && Standard(Mirror(c)) && t in c.sensors && MirrorTable(t) in Mirror(c).sensors
    requires Mirrors(env, env') && level <= LevelCount(c)
    ensures ExtraCondition(Mirror(c), env', MirrorTable(t), level, isCritical)
       <==> ExtraCondition(c, env, t, level, isCritical)
  {
    MirrorAuxHolds(c, env, env', level);
    assert DiffHolds(Mirror(c), env', level) <==> DiffHolds(c, env, level);
    assert RateHolds(env', MirrorTable(t), level, isCritical) <==> RateHolds(env, t, level, isCritical);
  }

  lemma MirrorBits(c: Config, env: Env, env': Env, t: SensorTable, temp: int, k: nat)
    requires Standard(c) && Standard(Mirror(c)) && t in c.sensors && MirrorTable(t) in Mirror(c).sensors
    requires Mirrors(env, env') && k < LevelCount(c)
    ensures Enters(Mirror(c), env', MirrorTable(t), -temp, k) <==> Enters(c, env, t, temp, k)
    ensures Keeps(Mirror(c), env', MirrorTable(t), -temp, k) <==> Keeps(c, env, t, temp, k)
    ensures Reaches(!c.desc, -temp, MirrorTable(t).items[k].threshold) <==> Reaches(c.desc, temp, t.items[k].threshold)
  {
    MirrorExtra(c, env, env', t, k + 1, true);
    MirrorExtra(c, env, env', t, k + 1, false);
  }

  lemma SameBits(s: Signals, m: Signals)
    requires WellFormed(s) && WellFormed(m) && |s.trigger| == |m.trigger|
    requires forall k | 0 <= k < |s.trigger| ::
               s.trigger[k] == m.trigger[k] && s.enter[k] == m.enter[k] && s.keep[k] == m.keep[k]
    ensures s == m
  {
    assert s.trigger == m.trigger && s.enter == m.enter && s.keep == m.keep;
  }

  /** Gates included: the automaton of a descending table equals the automaton of the ascending
      table with negated thresholds, run on the negated temperatures. */
  lemma MirrorAutomaton(c: Config, env: Env, env': Env, t: SensorTable, temp: int)
    requires Standard(c) && t in c.sensors && Mirrors(env, env')
    ensures Standard(Mirror(c)) && MirrorTable(t) in Mirror(c).sensors
    ensures SignalsOf(Mirror(c), env', MirrorTable(t), -temp) == SignalsOf(c, env, t, temp)
  {
    MirrorIsStandard(c);
    var i :| 0 <= i < |c.sensors| && c.sensors[i] == t;
    assert Mirror(c).sensors[i] == MirrorTable(t);
    var s, m := SignalsOf(c, env, t, temp), SignalsOf(Mirror(c), env', MirrorTable(t), -temp);
    forall k | 0 <= k < LevelCount(c)
      ensures s.trigger[k] == m.trigger[k] && s.enter[k] == m.enter[k] && s.keep[k] == m.keep[k]
    {
      MirrorBits(c, env, env', t, temp, k);
    }
    SameBits(s, m);
  }

  lemma {:induction false} LevelsAgree(c: Config, env: Env, c': Config, env': Env, level: nat, k: nat)
    requires Standard(c) && Standard(c') && LevelCount(c') == LevelCount(c) && level <= LevelCount(c)
    requires k <= |c.sensors| == |c'.sensors|
    requires forall i | 0 <= i < k ::
               && c'.sensors[i].sensor == c.sensors[i].sensor
               && (c.sensors[i].sensor in env'.report <==> c.sensors[i].sensor in env.report)
               && (c.sensors[i].sensor in env.report ==>
                     SensorStep(c', env', c'.sensors[i], level) == SensorStep(c, env, c.sensors[i], level))
    ensures Levels(c', env', level, k) == Levels(c, env, level, k)
  {
    if k > 0 { LevelsAgree(c, env, c', env', level, k - 1); }
  }

  lemma MirrorSensorStep(c: Config, env: Env, env': Env, i: nat, level: nat)
    requires Standard(c) && Standard(Mirror(c)) && Mirrors(env, env') && level <= LevelCount(c)
    requires i < |c.sensors| && c.sensors[i].sensor in env.report
    ensures SensorStep(Mirror(c), env', Mirror(c).sensors[i], level) == SensorStep(c, env, c.sensors[i], level)
  {
    var t, m := c.sensors[i], Mirror(c).sensors[i];
    var temp := env.report[t.sensor];
    MirrorAutomaton(c, env, env', t, temp);
    assert m == MirrorTable(t) && env'.report[m.sensor] == -temp;
    assert SensorStep(Mirror(c), env', m, level) == Step(SignalsOf(Mirror(c), env', m, -temp), level);
  }

  lemma MirrorLevels(c: Config, env: Env, env': Env, level: nat)
    requires Standard(c) && Standard(Mirror(c)) && Mirrors(env, env') && level <= LevelCount(c)
    ensures Levels(Mirror(c), env', level, |c.sensors|) == Levels(c, env, level, |c.sensors|)
  {
    var m := Mirror(c);
    forall i | 0 <= i < |c.sensors| && c.sensors[i].sensor in env.report
      ensures SensorStep(m, env', m.sensors[i], level) == SensorStep(c, env, c.sensors[i], level)
    {
      MirrorSensorStep(c, env, env', i, level);
    }
    LevelsAgree(c, env, m, env', level, |c.sensors|);
  }

  /** The same holds for whole clusters over whole runs. */
  lemma {:induction false} MirrorRun(c: Config, envs: seq<Env>, mirrored: seq<Env>, level: nat)
    requires Standard(c) && level <= LevelCount(c)
    requires |mirrored| == |envs| && forall i | 0 <= i < |envs| :: Mirrors(envs[i], mirrored[i])
    ensures Standard(Mirror(c)) && LevelCount(Mirror(c)) == LevelCount(c)
    ensures ClusterRun(Mirror(c), mirrored, level) == ClusterRun(c, envs, level)
  {
    MirrorIsStandard(c);
    if envs != [] {
      var n := |envs| - 1;
      MirrorRun(c, envs[..n], mirrored[..n], level);
      MirrorLevels(c, envs[n], mirrored[n], ClusterRun(c, envs[..n], level));
    }
  }
}
