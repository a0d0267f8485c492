/**
 Configuration of a sensor cluster, the report it is updated with, and what one update means:
 every reported sensor takes a hysteresis step from the shared level, and the maximum wins.
 Rates are reals, temperatures and levels unbounded integers.
 */
module ClusterSpec {
  import opened Hysteresis
  import opened Sorting

  datatype ThermalStatus = Ideal | Stable | Critical

  datatype LevelItem = LevelItem(threshold: int, thresholdClr: int, tempRiseRate: real, level: nat)

  datatype AuxLevelItem = AuxLevelItem(lowerTemp: int, upperTemp: int)

  datatype TempDiffItem = TempDiffItem(sensor1: string, sensor2: string, tempDiff: int, level: int)

  // One entry of the source's sensor maps, which are only ever walked in key order.
  datatype SensorTable = SensorTable(sensor: string, items: seq<LevelItem>)

  datatype AuxTable = AuxTable(sensor: string, items: seq<AuxLevelItem>)

  datatype Config = Config(
    desc: bool, aux: bool, rate: bool, tempDiff: bool,
    sensors: seq<SensorTable>, auxSensors: seq<AuxTable>,
    diffs: seq<TempDiffItem>,  // in level order, as every query finds them
    states: map<string, string>)

  /** What an update sees: the report, the rate history of the subscriber, and the state
      conditions (name and value) that currently hold. */
  datatype Env = Env(report: map<string, int>, rates: map<string, seq<real>>, rateCount: nat,
                     held: set<(string, string)>)

  // ----- well-formed configurations -----

  predicate Numbered(items: seq<LevelItem>) {
    forall i | 0 <= i < |items| :: items[i].level == i + 1
  }

  /** What `CheckStandard` accepts. */
  predicate PassesCheck(c: Config) {
    && c.sensors != []
    && (forall i | 0 <= i < |c.sensors| :: |c.sensors[i].items| == LevelCount(c) && Numbered(c.sensors[i].items))
    && (forall i | 0 <= i < |c.auxSensors| :: |c.auxSensors[i].items| in {0, LevelCount(c)})
    && (c.tempDiff ==> |c.diffs| == LevelCount(c))
  }

  /** ... together with what the parser has already refused: empty level lists. */
  predicate Standard(c: Config) {
    && PassesCheck(c)
    && LevelCount(c) > 0
    && forall i | 0 <= i < |c.auxSensors| :: c.auxSensors[i].items != []
  }

  function LevelCount(c: Config): nat
    requires c.sensors != []
  {
    |c.sensors[0].items|
  }

  // ----- the temp-diff list, sorted by level -----

  function DiffLevel(d: TempDiffItem): int { d.level }

  function SortDiffs(s: seq<TempDiffItem>): (r: seq<TempDiffItem>)
    ensures |r| == |s|
  {
    Sort(s, DiffLevel)
  }

  // ----- extra conditions -----

  function RateTrend(targetRate: real, rateList: seq<real>, maxRateCount: nat): ThermalStatus {
    var r1 := if targetRate >= 0.0 then targetRate else 0.0;
    var r2 := if targetRate >= 0.0 then 0.0 else targetRate;
    if |rateList| < maxRateCount then Stable
    else if forall i | 0 <= i < |rateList| :: rateList[i] >= r1 then Critical
    else if forall i | 0 <= i < |rateList| :: rateList[i] < r2 then Ideal
    else Stable
  }

  predicate AuxHolds(c: Config, env: Env, level: nat)
    requires Standard(c) && level <= LevelCount(c)
  {
    level == 0 ||
    forall i | 0 <= i < |c.auxSensors| ::
      && c.auxSensors[i].sensor in env.report
      && c.auxSensors[i].items[level - 1].lowerTemp
           <= env.report[c.auxSensors[i].sensor]
           <= c.auxSensors[i].items[level - 1].upperTemp
  }

  predicate RateHolds(env: Env, t: SensorTable, level: nat, isCritical: bool)
    requires level <= |t.items|
  {
    level == 0 ||
    (t.sensor in env.rates &&
     var trend := RateTrend(t.items[level - 1].tempRiseRate, env.rates[t.sensor], env.rateCount);
     if isCritical then trend.Critical? else !trend.Ideal?)
  }

  predicate DiffHolds(c: Config, env: Env, level: nat) {
    level == 0 ||
    (level <= |c.diffs| &&
     var d := c.diffs[level - 1];
     d.sensor1 in env.report && d.sensor2 in env.report &&
     env.report[d.sensor1] - env.report[d.sensor2] <= d.tempDiff)
  }

  predicate ExtraCondition(c: Config, env: Env, t: SensorTable, level: nat, isCritical: bool)
    requires Standard(c) && t in c.sensors && level <= LevelCount(c)
  {
    && (c.aux ==> AuxHolds(c, env, level))
    && (c.rate ==> RateHolds(env, t, level, isCritical))
    && (c.tempDiff ==> DiffHolds(c, env, level))
  }

  predicate StateHolds(states: map<string, string>, held: set<(string, string)>) {
    forall k | k in states :: (k, states[k]) in held
  }

  // ----- one update -----

  function OneBelow(level: nat): nat { if level > 0 then level - 1 else 0 }

  /** An ascending table is climbed by rising temperatures, a descending one by falling ones. */
  predicate Reaches(desc: bool, temp: int, bound: int) { if desc then temp <= bound else temp >= bound }

  predicate Enters(c: Config, env: Env, t: SensorTable, temp: int, k: nat)
    requires Standard(c) && t in c.sensors && k < LevelCount(c)
  {
    Reaches(c.desc, temp, t.items[k].threshold) && ExtraCondition(c, env, t, k + 1, true)
  }

  predicate Keeps(c: Config, env: Env, t: SensorTable, temp: int, k: nat)
    requires Standard(c) && t in c.sensors && k < LevelCount(c)
  {
    Reaches(c.desc, temp, t.items[k].thresholdClr) && ExtraCondition(c, env, t, k + 1, false)
  }

  function TriggerBits(c: Config, t: SensorTable, temp: int, n: nat): (bs: seq<bool>)
    requires n <= |t.items|
    ensures |bs| == n && forall k | 0 <= k < n :: bs[k] <==> Reaches(c.desc, temp, t.items[k].threshold)
  {
    if n == 0 then [] else TriggerBits(c, t, temp, n - 1) + [Reaches(c.desc, temp, t.items[n - 1].threshold)]
  }

  function EnterBits(c: Config, env: Env, t: SensorTable, temp: int, n: nat): (bs: seq<bool>)
    requires Standard(c) && t in c.sensors && n <= LevelCount(c)
    ensures |bs| == n && forall k | 0 <= k < n :: bs[k] <==> Enters(c, env, t, temp, k)
  {
    if n == 0 then [] else EnterBits(c, env, t, temp, n - 1) + [Enters(c, env, t, temp, n - 1)]
  }

  function KeepBits(c: Config, env: Env, t: SensorTable, temp: int, n: nat): (bs: seq<bool>)
    requires Standard(c) && t in c.sensors && n <= LevelCount(c)
    ensures |bs| == n && forall k | 0 <= k < n :: bs[k] <==> Keeps(c, env, t, temp, k)
  {
    if n == 0 then [] else KeepBits(c, env, t, temp, n - 1) + [Keeps(c, env, t, temp, n - 1)]
  }

  function SignalsOf(c: Config, env: Env, t: SensorTable, temp: int): (s: Signals)
    requires Standard(c) && t in c.sensors
    ensures WellFormed(s) && |s.trigger| == LevelCount(c)
  {
    var n := LevelCount(c);
    Signals(TriggerBits(c, t, temp, n), EnterBits(c, env, t, temp, n), KeepBits(c, env, t, temp, n))
  }

  function SensorStep(c: Config, env: Env, t: SensorTable, level: nat): (r: nat)
    requires Standard(c) && t in c.sensors && t.sensor in env.report && level <= LevelCount(c)
    ensures r <= LevelCount(c)
  {
    Step(SignalsOf(c, env, t, env.report[t.sensor]), level)
  }

  /** The level list built from the first `k` sensors. */
  function Levels(c: Config, env: Env, level: nat, k: nat): (ls: seq<nat>)
    requires Standard(c) && level <= LevelCount(c) && k <= |c.sensors|
    ensures forall i | 0 <= i < |ls| :: ls[i] <= LevelCount(c)
  {
    if k == 0 then [] else
      var t := c.sensors[k - 1];
      var rest := Levels(c, env, level, k - 1);
      if t.sensor in env.report then rest + [SensorStep(c, env, t, level)] else rest
  }

  function MaxOf(s: seq<nat>): (m: nat)
    requires s != []
    ensures m in s && forall i | 0 <= i < |s| :: s[i] <= m
  {
    if |s| == 1 then s[0] else Max(MaxOf(s[..|s| - 1]), s[|s| - 1])
  }

  function ClusterStep(c: Config, env: Env, level: nat): (r: nat)
    requires Standard(c) && level <= LevelCount(c)
    ensures r <= LevelCount(c)
  {
    if !StateHolds(c.states, env.held) then 0
    else
      var ls := Levels(c, env, level, |c.sensors|);
      if ls == [] then level else MaxOf(ls)
  }

  /** The level after each of a run of updates, oldest first, and the level before them. */
  function ClusterRun(c: Config, envs: seq<Env>, level: nat): (r: nat)
    requires Standard(c) && level <= LevelCount(c)
    ensures r <= LevelCount(c)
  {
    if envs == [] then level
    else ClusterStep(c, envs[|envs| - 1], ClusterRun(c, envs[..|envs| - 1], level))
  }
}
