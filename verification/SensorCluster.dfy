/** The sensor cluster itself: its fields, its search loops, and its gates. */
module SensorCluster {
  import opened Hysteresis
  import opened ClusterSpec
  import opened Sorting

  class ThermalConfigSensorCluster {
    var descFlag: bool
    var auxFlag: bool
    var rateFlag: bool
    var tempDiffFlag: bool
    var latestLevel: nat
    var sensorInfolist: seq<SensorTable>
    var auxSensorInfolist: seq<AuxTable>
    var tempDiffInfoList: seq<TempDiffItem>
    var stateMap: map<string, string>

    /** The configuration that decides every answer. Queries reorder the temp-diff list in
        place, but never change this value. */
    ghost function Configuration(): Config
      reads this
    {
      Config(descFlag, auxFlag, rateFlag, tempDiffFlag, sensorInfolist, auxSensorInfolist,
             SortDiffs(tempDiffInfoList), stateMap)
    }

    ghost predicate Valid()
      reads this
    {
      Standard(Configuration()) && latestLevel <= LevelCount(Configuration())
    }

    constructor (c: Config)
      ensures Configuration() == c.(diffs := SortDiffs(c.diffs)) && latestLevel == 0
    {
      descFlag, auxFlag, rateFlag, tempDiffFlag := c.desc, c.aux, c.rate, c.tempDiff;
      sensorInfolist, auxSensorInfolist := c.sensors, c.auxSensors;
      tempDiffInfoList, stateMap := c.diffs, c.states;
      latestLevel := 0;
    }

    method CheckStandard() returns (ok: bool)
      ensures ok <==> PassesCheck(Configuration())
      ensures ok <==> (sensorInfolist != [] &&
                       var n := |sensorInfolist[0].items|;
                       && (forall t | t in sensorInfolist ::
                             |t.items| == n && forall j | 0 <= j < n :: t.items[j].level == j + 1)
                       && (forall a | a in auxSensorInfolist :: |a.items| == 0 || |a.items| == n)
                       && (tempDiffFlag ==> |tempDiffInfoList| == n))
    {
      if sensorInfolist == [] {
        return false;
      }
      var expectedLevSize := |sensorInfolist[0].items|;
      for s := 0 to |sensorInfolist|
        invariant forall i | 0 <= i < s ::
                    |sensorInfolist[i].items| == expectedLevSize && Numbered(sensorInfolist[i].items)
      {
        var items := sensorInfolist[s].items;
        if |items| != expectedLevSize {
          return false;
        }
        for i := 0 to |items|
          invariant forall j | 0 <= j < i :: items[j].level == j + 1
        {
          if items[i].level != i + 1 {
            assert !Numbered(sensorInfolist[s].items);
            return false;
          }
        }
      }
      for a := 0 to |auxSensorInfolist|
        invariant forall i | 0 <= i < a :: |auxSensorInfolist[i].items| in {0, expectedLevSize}
      {
        var actualLevSize := |auxSensorInfolist[a].items|;
        if !(actualLevSize == 0 || actualLevSize == expectedLevSize) {
          return false;
        }
      }
      if tempDiffFlag && |tempDiffInfoList| != expectedLevSize {
        return false;
      }
      return true;
    }

    /** One report: the level becomes the cluster step of the old level. */
    method UpdateThermalLevel(env: Env)
      requires Valid()
      modifies this`latestLevel, this`tempDiffInfoList
      ensures Valid() && Configuration() == old(Configuration())
      ensures latestLevel == ClusterStep(old(Configuration()), env, old(latestLevel))
    {
      var held := CheckState(env);
      if !held {
        latestLevel := 0;
        return;
      }
      var levelList := CalculateSensorLevel(env);
      if levelList == [] {
        return;
      }
      latestLevel := MaxOf(levelList);
    }

    method CheckState(env: Env) returns (ok: bool)
      ensures ok <==> forall k | k in stateMap :: (k, stateMap[k]) in env.held
    {
      var props := stateMap.Keys;
      while props != {}
        invariant props <= stateMap.Keys
        invariant forall k | k in stateMap.Keys - props :: (k, stateMap[k]) in env.held
        decreases props
      {
        var prop :| prop in props;
        if (prop, stateMap[prop]) !in env.held {
          return false;
        }
        props := props - {prop};
      }
      return true;
    }

    method CalculateSensorLevel(env: Env) returns (levelList: seq<nat>)
      requires Valid()
      modifies this`tempDiffInfoList
      ensures Configuration() == old(Configuration())
      ensures levelList == Levels(Configuration(), env, latestLevel, |sensorInfolist|)
    {
      levelList := [];
      for s := 0 to |sensorInfolist|
        invariant Configuration() == old(Configuration())
        invariant levelList == Levels(Configuration(), env, latestLevel, s)
      {
        var t := sensorInfolist[s];
        if t.sensor in env.report {
          var level;
          if descFlag {
            level := DescJudgment(t, env.report[t.sensor], latestLevel, env);
          } else {
            level := AscJudgment(t, env.report[t.sensor], latestLevel, env);
          }
          levelList := levelList + [level];
        }
      }
    }

    method AscJudgment(t: SensorTable, curTemp: int, latest: nat, env: Env) returns (level: nat)
      requires Valid() && !descFlag && t in sensorInfolist && latest <= |t.items|
      modifies this`tempDiffInfoList
      ensures Configuration() == old(Configuration())
      ensures level == Step(SignalsOf(Configuration(), env, t, curTemp), latest)
    {
      level := latest;
      var levItems := t.items;
      if level > 0 && level < |levItems| {
        var curDownTemp := levItems[level - 1].thresholdClr;
        var nextUptemp := levItems[level].threshold;
        if curTemp >= nextUptemp {
          level := AscendLevelToThreshold(t, level, curTemp, env);
        } else {
          var fall := curTemp < curDownTemp;
          if !fall {
            var extra := CheckExtraCondition(env, level, t, false);
            fall := !extra;
          }
          if fall {
            level := DescendLevelToThresholdClr(t, level, curTemp, env);
          }
        }
      } else if level == |levItems| {
        var curDownTemp := levItems[level - 1].thresholdClr;
        var fall := curTemp < curDownTemp;
        if !fall {
          var extra := CheckExtraCondition(env, level, t, false);
          fall := !extra;
        }
        if fall {
          level := DescendLevelToThreshold(t, level, curTemp, env);
        }
      } else {
        var nextUptemp := levItems[level].threshold;
        if curTemp >= nextUptemp {
          level := AscendLevelToThresholdClr(t, level, curTemp, env);
        }
      }
    }

    method DescJudgment(t: SensorTable, curTemp: int, latest: nat, env: Env) returns (level: nat)
      requires Valid() && descFlag && t in sensorInfolist && latest <= |t.items|
      modifies this`tempDiffInfoList
      ensures Configuration() == old(Configuration())
      ensures level == Step(SignalsOf(Configuration(), env, t, curTemp), latest)
    {
      level := latest;
      var levItems := t.items;
      if level != 0 && level < |levItems| {
        var curDownTemp := levItems[level - 1].thresholdClr;
        var nextUptemp := levItems[level].threshold;
        if curTemp <= nextUptemp {
          level := LevelUpwardsSearch(t, level, curTemp, env);
        } else {
          var fall := curTemp > curDownTemp;
          if !fall {
            var extra := CheckExtraCondition(env, level, t, false);
            fall := !extra;
          }
          if fall {
            level := LevelDownwardsSearch(t, level, curTemp, env);
          }
        }
      } else if level == |levItems| {
        var curDownTemp := levItems[level - 1].thresholdClr;
        var fall := curTemp > curDownTemp;
        if !fall {
          var extra := CheckExtraCondition(env, level, t, false);
          fall := !extra;
        }
        if fall {
          level := LevelDownwardsSearchWithThreshold(t, level, curTemp, env);
        }
      } else {
        var nextUptemp := levItems[level].threshold;
        if curTemp <= nextUptemp {
          level := LevelUpwardsSearchWithThreshold(t, level, curTemp, env);
        }
      }
    }

    method AscendLevelToThreshold(t: SensorTable, start: nat, curTemp: int, env: Env) returns (level: nat)
      requires Valid() && !descFlag && t in sensorInfolist && start <= |t.items|
      modifies this`tempDiffInfoList
      ensures Configuration() == old(Configuration())
      ensures level == Climb(SignalsOf(Configuration(), env, t, curTemp), start)
    {
      level := start;
      ghost var s := SignalsOf(Configuration(), env, t, curTemp);
      for i := start to |t.items|
        invariant Configuration() == old(Configuration())
        invariant level == i && Climb(s, start) == Climb(s, level)
      {
        if curTemp < t.items[i].threshold {
          break;
        }
        var extra := CheckExtraCondition(env, t.items[i].level, t, true);
        if !extra {
          break;
        }
        level := t.items[i].level;
      }
    }

    method AscendLevelToThresholdClr(t: SensorTable, start: nat, curTemp: int, env: Env) returns (level: nat)
      requires Valid() && !descFlag && t in sensorInfolist && start <= |t.items|
      modifies this`tempDiffInfoList
      ensures Configuration() == old(Configuration())
      ensures level == Climb(SignalsOf(Configuration(), env, t, curTemp), start)
    {
      level := start;
      ghost var s := SignalsOf(Configuration(), env, t, curTemp);
      for i := start to |t.items|
        invariant Configuration() == old(Configuration())
        invariant level == i && Climb(s, start) == Climb(s, level)
      {
        var enter := curTemp >= t.items[i].threshold;
        if enter {
          enter := CheckExtraCondition(env, t.items[i].level, t, true);
        }
        if enter {
          level := t.items[i].level;
        } else {
          break;
        }
      }
    }

    method DescendLevelToThresholdClr(t: SensorTable, start: nat, curTemp: int, env: Env) returns (level: nat)
      requires Valid() && !descFlag && t in sensorInfolist && start <= |t.items|
      modifies this`tempDiffInfoList
      ensures Configuration() == old(Configuration())
      ensures level == Fall(SignalsOf(Configuration(), env, t, curTemp), start)
    {
      level := start;
      ghost var s := SignalsOf(Configuration(), env, t, curTemp);
      var i := start;
      while i >= 1
        invariant Configuration() == old(Configuration())
        invariant level == i <= start && Fall(s, start) == Fall(s, level)
      {
        if curTemp >= t.items[i - 1].thresholdClr {
          var extra := CheckExtraCondition(env, t.items[i - 1].level, t, false);
          if extra {
            break;
          }
        }
        level := OneBelow(t.items[i - 1].level);
        i := i - 1;
      }
    }

    method DescendLevelToThreshold(t: SensorTable, start: nat, curTemp: int, env: Env) returns (level: nat)
      requires Valid() && !descFlag && t in sensorInfolist && start <= |t.items|
      modifies this`tempDiffInfoList
      ensures Configuration() == old(Configuration())
      ensures level == Fall(SignalsOf(Configuration(), env, t, curTemp), start)
    {
      level := start;
      ghost var s := SignalsOf(Configuration(), env, t, curTemp);
      var i := start;
      while i >= 1
        invariant Configuration() == old(Configuration())
        invariant level == i <= start && Fall(s, start) == Fall(s, level)
      {
        var leave := curTemp < t.items[i - 1].thresholdClr;
        if !leave {
          var extra := CheckExtraCondition(env, t.items[i - 1].level, t, false);
          leave := !extra;
        }
        if leave {
          level := OneBelow(t.items[i - 1].level);
        } else {
          break;
        }
        i := i - 1;
      }
    }

    method LevelUpwardsSearch(t: SensorTable, start: nat, curTemp: int, env: Env) returns (level: nat)
      requires Valid() && descFlag && t in sensorInfolist && start <= |t.items|
      modifies this`tempDiffInfoList
      ensures Configuration() == old(Configuration())
      ensures level == Climb(SignalsOf(Configuration(), env, t, curTemp), start)
    {
      level := start;
      ghost var s := SignalsOf(Configuration(), env, t, curTemp);
      for i := start to |t.items|
        invariant Configuration() == old(Configuration())
        invariant level == i && Climb(s, start) == Climb(s, level)
      {
        if curTemp > t.items[i].threshold {
          break;
        }
        var extra := CheckExtraCondition(env, t.items[i].level, t, true);
        if !extra {
          break;
        }
        level := t.items[i].level;
      }
    }

    method LevelUpwardsSearchWithThreshold(t: SensorTable, start: nat, curTemp: int, env: Env)
      returns (level: nat)
      requires Valid() && descFlag && t in sensorInfolist && start <= |t.items|
      modifies this`tempDiffInfoList
      ensures Configuration() == old(Configuration())
      ensures level == Climb(SignalsOf(Configuration(), env, t, curTemp), start)
    {
      level := start;
      ghost var s := SignalsOf(Configuration(), env, t, curTemp);
      for i := start to |t.items|
        invariant Configuration() == old(Configuration())
        invariant level == i && Climb(s, start) == Climb(s, level)
      {
        var enter := curTemp <= t.items[i].threshold;
        if enter {
          enter := CheckExtraCondition(env, t.items[i].level, t, true);
        }
        if enter {
          level := t.items[i].level;
        } else {
          break;
        }
      }
    }

    method LevelDownwardsSearch(t: SensorTable, start: nat, curTemp: int, env: Env) returns (level: nat)
      requires Valid() && descFlag && t in sensorInfolist && start <= |t.items|
      modifies this`tempDiffInfoList
      ensures Configuration() == old(Configuration())
      ensures level == Fall(SignalsOf(Configuration(), env, t, curTemp), start)
    {
      level := start;
      ghost var s := SignalsOf(Configuration(), env, t, curTemp);
      var i := start;
      while i >= 1
        invariant Configuration() == old(Configuration())
        invariant level == i <= start && Fall(s, start) == Fall(s, level)
      {
        if curTemp <= t.items[i - 1].thresholdClr {
          var extra := CheckExtraCondition(env, t.items[i - 1].level, t, false);
          if extra {
            break;
          }
        }
        level := OneBelow(t.items[i - 1].level);
        i := i - 1;
      }
    }

    method LevelDownwardsSearchWithThreshold(t: SensorTable, start: nat, curTemp: int, env: Env)
      returns (level: nat)
      requires Valid() && descFlag && t in sensorInfolist && start <= |t.items|
      modifies this`tempDiffInfoList
      ensures Configuration() == old(Configuration())
      ensures level == Fall(SignalsOf(Configuration(), env, t, curTemp), start)
    {
      level := start;
      ghost var s := SignalsOf(Configuration(), env, t, curTemp);
      var i := start;
      while i >= 1
        invariant Configuration() == old(Configuration())
        invariant level == i <= start && Fall(s, start) == Fall(s, level)
      {
        var leave := curTemp > t.items[i - 1].thresholdClr;
        if !leave {
          var extra := CheckExtraCondition(env, t.items[i - 1].level, t, false);
          leave := !extra;
        }
        if leave {
          level := OneBelow(t.items[i - 1].level);
        } else {
          break;
        }
        i := i - 1;
      }
    }

    method CheckExtraCondition(env: Env, level: nat, t: SensorTable, isCritical: bool) returns (ok: bool)
      requires Valid() && t in sensorInfolist && level <= |t.items|
      modifies this`tempDiffInfoList
      ensures Configuration() == old(Configuration())
      ensures ok <==> ExtraCondition(Configuration(), env, t, level, isCritical)
    {
      if auxFlag {
        var aux := IsAuxSensorTrigger(env, level);
        if !aux {
          return false;
        }
      }
      if rateFlag {
        var rate := IsTempRateTrigger(env, level, t, isCritical);
        if !rate {
          return false;
        }
      }
      if tempDiffFlag {
        var diff := IsTempDiffTrigger(env, level);
        if !diff {
          return false;
        }
      }
      return true;
    }

    method IsAuxSensorTrigger(env: Env, level: nat) returns (ok: bool)
      requires Valid() && level <= LevelCount(Configuration())
      ensures ok <==> AuxHolds(Configuration(), env, level)
    {
      if level == 0 {
        return true;
      }
      for a := 0 to |auxSensorInfolist|
        invariant forall i | 0 <= i < a ::
                    && auxSensorInfolist[i].sensor in env.report
                    && auxSensorInfolist[i].items[level - 1].lowerTemp
                         <= env.report[auxSensorInfolist[i].sensor]
                         <= auxSensorInfolist[i].items[level - 1].upperTemp
      {
        var sensor := auxSensorInfolist[a].sensor;
        if sensor !in env.report {
          return false;
        }
        var item := auxSensorInfolist[a].items[level - 1];
        if !(env.report[sensor] >= item.lowerTemp && env.report[sensor] <= item.upperTemp) {
          return false;
        }
      }
      return true;
    }

    method IsTempRateTrigger(env: Env, level: nat, t: SensorTable, isCritical: bool) returns (ok: bool)
      requires level <= |t.items|
      ensures ok <==> RateHolds(env, t, level, isCritical)
    {
      if level == 0 {
        return true;
      }
      if t.sensor !in env.rates {
        return false;
      }
      var trend := GetRateTrend(t.items[level - 1].tempRiseRate, env.rates[t.sensor], env.rateCount);
      if isCritical {
        return trend == Critical;
      } else {
        return trend != Ideal;
      }
    }

    method IsTempDiffTrigger(env: Env, level: nat) returns (ok: bool)
      modifies this`tempDiffInfoList
      ensures Configuration() == old(Configuration())
      ensures ok <==> DiffHolds(Configuration(), env, level)
    {
      if level == 0 {
        return true;
      }
      if level > |tempDiffInfoList| {
        return false;
      }
      SortSorts(tempDiffInfoList, DiffLevel);
      SortKeepsOrdered(SortDiffs(tempDiffInfoList), DiffLevel);
      tempDiffInfoList := SortDiffs(tempDiffInfoList);
      var tempDiffInfo := tempDiffInfoList[level - 1];
      if tempDiffInfo.sensor1 !in env.report || tempDiffInfo.sensor2 !in env.report {
        return false;
      }
      return !(env.report[tempDiffInfo.sensor1] - env.report[tempDiffInfo.sensor2] > tempDiffInfo.tempDiff);
    }

    method GetRateTrend(targetRate: real, rateList: seq<real>, maxRateCount: nat)
      returns (trend: ThermalStatus)
      ensures trend == RateTrend(targetRate, rateList, maxRateCount)
    {
      trend := Stable;
      if |rateList| < maxRateCount {
        return;
      }
      var r1, r2 := 0.0, 0.0;
      if targetRate >= 0.0 {
        r1 := targetRate;
      } else {
        r2 := targetRate;
      }
      var isCritical, isIdeal := true, true;
      for i := 0 to |rateList|
        invariant isCritical <==> forall j | 0 <= j < i :: rateList[j] >= r1
        invariant isIdeal <==> forall j | 0 <= j < i :: rateList[j] < r2
      {
        if rateList[i] >= r2 {
          isIdeal := false;
        }
        if rateList[i] < r1 {
          isCritical := false;
        }
      }
      trend := if isCritical then Critical else if isIdeal then Ideal else Stable;
    }
  }
}
