/**
 The thermal zone of the protector: a second implementation of the hysteresis machine, without
 gates, proved to agree with a single-sensor cluster of the service.
 */
module ProtectorZone {
  import opened Hysteresis
  import opened ClusterSpec
  import opened ClusterTheorems

  datatype ThermalZoneInfoItem = ThermalZoneInfoItem(level: nat, threshold: int, thresholdClr: int)

  /** Levels count up from 1; an empty list would be indexed at -1. */
  predicate Usable(items: seq<ThermalZoneInfoItem>) {
    items != [] && forall i | 0 <= i < |items| :: items[i].level == i + 1
  }

  function TriggersAt(desc: bool, items: seq<ThermalZoneInfoItem>, temp: int, n: nat): (bs: seq<bool>)
    requires n <= |items|
    ensures |bs| == n && forall k | 0 <= k < n :: bs[k] <==> Reaches(desc, temp, items[k].threshold)
  {
    if n == 0 then [] else TriggersAt(desc, items, temp, n - 1) + [Reaches(desc, temp, items[n - 1].threshold)]
  }

  function KeepsAt(desc: bool, items: seq<ThermalZoneInfoItem>, temp: int, n: nat): (bs: seq<bool>)
    requires n <= |items|
    ensures |bs| == n && forall k | 0 <= k < n :: bs[k] <==> Reaches(desc, temp, items[k].thresholdClr)
  {
    if n == 0 then [] else KeepsAt(desc, items, temp, n - 1) + [Reaches(desc, temp, items[n - 1].thresholdClr)]
  }

  function ZoneSignals(desc: bool, items: seq<ThermalZoneInfoItem>, temp: int): (s: Signals)
    ensures WellFormed(s) && |s.trigger| == |items|
  {
    var triggers := TriggersAt(desc, items, temp, |items|);
    Signals(triggers, triggers, KeepsAt(desc, items, temp, |items|))
  }

  function ZoneRun(desc: bool, items: seq<ThermalZoneInfoItem>, temps: seq<int>, level: nat): (r: nat)
    requires level <= |items|
    ensures r <= |items|
  {
    if temps == [] then level
    else
      var n := |temps| - 1;
      Step(ZoneSignals(desc, items, temps[n]), ZoneRun(desc, items, temps[..n], level))
  }

  class ProtectorThermalZoneInfo {
    var desc: bool
    var latestLevel: nat
    var tzItemList: seq<ThermalZoneInfoItem>

    ghost predicate Valid()
      reads this
    {
      Usable(tzItemList) && latestLevel <= |tzItemList|
    }

    ghost function At(temp: int): (s: Signals)
      reads this
      ensures WellFormed(s) && |s.trigger| == |tzItemList|
    {
      ZoneSignals(desc, tzItemList, temp)
    }

    constructor (desc: bool, items: seq<ThermalZoneInfoItem>)
      ensures this.desc == desc && tzItemList == items && latestLevel == 0
    {
      this.desc, tzItemList, latestLevel := desc, items, 0;
    }

    method UpdateThermalLevel(curTemp: int)
      requires Valid()
      modifies this`latestLevel
      ensures Valid() && latestLevel == Step(At(curTemp), old(latestLevel))
    {
      var level;
      if desc {
        level := DescJudgment(curTemp);
      } else {
        level := AscJudgment(curTemp);
      }
      latestLevel := level;
    }

    method AscJudgment(curTemp: int) returns (level: nat)
      requires Valid() && !desc
      ensures level == Step(At(curTemp), latestLevel)
    {
      level := latestLevel;
      if level > 0 && level < |tzItemList| {
        var curDownTemp := tzItemList[level - 1].thresholdClr;
        var nextUptemp := tzItemList[level].threshold;
        if curTemp >= nextUptemp {
          level := HandleAscNextUpTemp(level, curTemp);
        } else if curTemp < curDownTemp {
          level := HandleAscCurDownTemp(level, curTemp);
        } else {
          level := tzItemList[level - 1].level;
        }
      } else if level == |tzItemList| {
        level := HandleAscMaxSizeTemp(level, curTemp);
      } else {
        level := HandleAscMinSizeTemp(level, curTemp);
      }
    }

    method DescJudgment(curTemp: int) returns (level: nat)
      requires Valid() && desc
      ensures level == Step(At(curTemp), latestLevel)
    {
      level := latestLevel;
      if level > 0 && level < |tzItemList| {
        var curDownTemp := tzItemList[level - 1].thresholdClr;
        var nextUptemp := tzItemList[level].threshold;
        if curTemp <= nextUptemp {
          level := HandleDescNextUpTemp(level, curTemp);
        } else if curTemp > curDownTemp {
          level := HandleDescCurDownTemp(level, curTemp);
        } else {
          level := tzItemList[level - 1].level;
        }
      } else if level == |tzItemList| {
        level := HandleDescMaxSizeTemp(level, curTemp);
      } else {
        level := HandleDescMinSizeTemp(level, curTemp);
      }
    }

    method HandleAscNextUpTemp(start: nat, curTemp: int) returns (level: nat)
      requires Valid() && !desc && start <= |tzItemList|
      ensures level == Climb(At(curTemp), start)
    {
      level := start;
      for i := start to |tzItemList|
        invariant level == i && Climb(At(curTemp), start) == Climb(At(curTemp), level)
      {
        if curTemp >= tzItemList[i].threshold {
          level := tzItemList[i].level;
        } else {
          break;
        }
      }
    }

    method HandleAscCurDownTemp(start: nat, curTemp: int) returns (level: nat)
      requires Valid() && !desc && start <= |tzItemList|
      ensures level == Fall(At(curTemp), start)
    {
      level := start;
      var i := start;
      while i >= 1
        invariant level == i <= start && Fall(At(curTemp), start) == Fall(At(curTemp), level)
      {
        if curTemp < tzItemList[i - 1].thresholdClr {
          level := OneBelow(tzItemList[i - 1].level);
        } else {
          break;
        }
        i := i - 1;
      }
    }

    method HandleAscMaxSizeTemp(start: nat, curTemp: int) returns (level: nat)
      requires Valid() && !desc && start == |tzItemList|
      ensures level == Fall(At(curTemp), start)
    {
      level := start;
      var curDownTemp := tzItemList[level - 1].thresholdClr;
      if curTemp < curDownTemp {
        var i := start;
        while i >= 1
          invariant level == i <= start && Fall(At(curTemp), start) == Fall(At(curTemp), level)
        {
          if curTemp < tzItemList[i - 1].thresholdClr {
            level := OneBelow(tzItemList[i - 1].level);
          } else {
            break;
          }
          i := i - 1;
        }
      }
    }

    method HandleAscMinSizeTemp(start: nat, curTemp: int) returns (level: nat)
      requires Valid() && !desc && start == 0
      ensures level == Climb(At(curTemp), 0)
    {
      level := start;
      var nextUptemp := tzItemList[level].threshold;
      if curTemp >= nextUptemp {
        for i := start to |tzItemList|
          invariant level == i && Climb(At(curTemp), 0) == Climb(At(curTemp), level)
        {
          if curTemp >= tzItemList[i].threshold {
            level := tzItemList[i].level;
          } else {
            break;
          }
        }
      } else {
        level := 0;
      }
    }

    method HandleDescNextUpTemp(start: nat, curTemp: int) returns (level: nat)
      requires Valid() && desc && start <= |tzItemList|
      ensures level == Climb(At(curTemp), start)
    {
      level := start;
      for i := start to |tzItemList|
        invariant level == i && Climb(At(curTemp), start) == Climb(At(curTemp), level)
      {
        if curTemp <= tzItemList[i].threshold {
          level := tzItemList[i].level;
        } else {
          break;
        }
      }
    }

    method HandleDescCurDownTemp(start: nat, curTemp: int) returns (level: nat)
      requires Valid() && desc && start <= |tzItemList|
      ensures level == Fall(At(curTemp), start)
    {
      level := start;
      var i := start;
      while i >= 1
        invariant level == i <= start && Fall(At(curTemp), start) == Fall(At(curTemp), level)
      {
        if curTemp > tzItemList[i - 1].thresholdClr {
          level := OneBelow(tzItemList[i - 1].level);
        } else {
          break;
        }
        i := i - 1;
      }
    }

    method HandleDescMaxSizeTemp(start: nat, curTemp: int) returns (level: nat)
      requires Valid() && desc && start == |tzItemList|
      ensures level == Fall(At(curTemp), start)
    {
      level := start;
      var curDownTemp := tzItemList[level - 1].thresholdClr;
      if curTemp > curDownTemp {
        var i := start;
        while i >= 1
          invariant level == i <= start && Fall(At(curTemp), start) == Fall(At(curTemp), level)
        {
          if curTemp > tzItemList[i - 1].thresholdClr {
            level := OneBelow(tzItemList[i - 1].level);
          } else {
            break;
          }
          i := i - 1;
        }
      }
    }

    method HandleDescMinSizeTemp(start: nat, curTemp: int) returns (level: nat)
      requires Valid() && desc && start == 0
      ensures level == Climb(At(curTemp), 0)
    {
      level := start;
      var nextUptemp := tzItemList[level].threshold;
      if curTemp <= nextUptemp {
        for i := start to |tzItemList|
          invariant level == i && Climb(At(curTemp), 0) == Climb(At(curTemp), level)
        {
          if curTemp <= tzItemList[i].threshold {
            level := tzItemList[i].level;
          } else {
            break;
          }
        }
      } else {
        level := 0;
      }
    }
  }

  // ----- agreement with the service -----

  function AsItems(items: seq<ThermalZoneInfoItem>): (r: seq<LevelItem>)
    ensures |r| == |items|
    ensures forall i | 0 <= i < |items| ::
              r[i] == LevelItem(items[i].threshold, items[i].thresholdClr, 0.0, items[i].level)
  {
    if items == [] then []
    else
      var last := items[|items| - 1];
      AsItems(items[..|items| - 1]) + [LevelItem(last.threshold, last.thresholdClr, 0.0, last.level)]
  }

  /** The zone as a cluster of the service with one sensor, no gates and no state conditions. */
  function AsCluster(desc: bool, items: seq<ThermalZoneInfoItem>, sensor: string): Config {
    Config(desc, false, false, false, [SensorTable(sensor, AsItems(items))], [], [], map[])
  }

  lemma ZoneIsAStandardCluster(desc: bool, items: seq<ThermalZoneInfoItem>, sensor: string)
    requires Usable(items)
    ensures var c := AsCluster(desc, items, sensor); Standard(c) && Ungated(c) && LevelCount(c) == |items|
  {}

  lemma SignalsAgree(desc: bool, items: seq<ThermalZoneInfoItem>, sensor: string, env: Env, temp: int)
    requires Usable(items) && Standard(AsCluster(desc, items, sensor))
    ensures var c := AsCluster(desc, items, sensor);
            SignalsOf(c, env, c.sensors[0], temp) == ZoneSignals(desc, items, temp)
  {}

  lemma StepsAgree(desc: bool, items: seq<ThermalZoneInfoItem>, sensor: string, env: Env, level: nat)
    requires Usable(items) && level <= |items| && sensor in env.report
    requires Standard(AsCluster(desc, items, sensor))
    ensures ClusterStep(AsCluster(desc, items, sensor), env, level)
         == Step(ZoneSignals(desc, items, env.report[sensor]), level)
  {
    var c := AsCluster(desc, items, sensor);
    SignalsAgree(desc, items, sensor, env, env.report[sensor]);
    OneSensorLevels(c, env, level);
  }

  /** The reports carry the temperatures, whatever else they carry. */
  ghost predicate Carries(envs: seq<Env>, sensor: string, temps: seq<int>) {
    |envs| == |temps| && forall i | 0 <= i < |envs| :: sensor in envs[i].report && envs[i].report[sensor] == temps[i]
  }

  /** Over any run, in both directions, the two implementations are at the same level. */
  lemma {:induction false} ImplementationsAgree(desc: bool, items: seq<ThermalZoneInfoItem>, sensor: string,
                                                envs: seq<Env>, temps: seq<int>, level: nat)
    requires Usable(items) && level <= |items| && Carries(envs, sensor, temps)
    ensures var c := AsCluster(desc, items, sensor);
            Standard(c) && LevelCount(c) == |items| &&
            ClusterRun(c, envs, level) == ZoneRun(desc, items, temps, level)
  {
    ZoneIsAStandardCluster(desc, items, sensor);
    if envs != [] {
      var n := |envs| - 1;
      ImplementationsAgree(desc, items, sensor, envs[..n], temps[..n], level);
      StepsAgree(desc, items, sensor, envs[n], ZoneRun(desc, items, temps[..n], level));
    }
  }
}
