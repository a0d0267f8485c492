/**
 Report by report: the cluster decides on the rates recorded so far, and only then is the report
 recorded. A rate-gated cluster therefore needs a warm-up before it can leave level zero, also when
 a change of state makes it decide again between reports.
 */
module WarmUp {
  import opened ClusterSpec
  import opened Slope
  import opened History
  import SensorCluster
  import ClusterTheorems

  /** A temperature report, or a decision on the last one, with the state conditions that hold. */
  datatype Arrival =
    | Report(report: map<string, int>, held: set<(string, string)>)
    | Redecision(held: set<(string, string)>)

  /** The level of the cluster, the report the policy has seen last, and the windows. */
  datatype Service = Service(level: nat, last: map<string, int>, windows: Windows)

  /** An empty report is ignored. */
  predicate Ignored(a: Arrival) { a.Report? && a.report == map[] }

  function EnvOf(s: Service, a: Arrival, rateCount: nat): Env {
    Env(if a.Report? then a.report else s.last, s.windows.rates, rateCount, a.held)
  }

  function Arrive(c: Config, s: Service, a: Arrival, historyCount: nat, rateCount: nat): (r: Service)
    requires Standard(c) && s.level <= LevelCount(c)
    ensures r.level <= LevelCount(c)
  {
    if Ignored(a) then s
    else
      var level := ClusterStep(c, EnvOf(s, a, rateCount), s.level);
      if a.Report? then Service(level, a.report, Record(s.windows, a.report, historyCount, rateCount))
      else s.(level := level)
  }

  method OnTemperatureChanged(subscriber: History.ThermalServiceSubscriber,
                              cluster: SensorCluster.ThermalConfigSensorCluster, last: map<string, int>,
                              report: map<string, int>, held: set<(string, string)>)
    returns (seen: map<string, int>)
    requires subscriber.Valid() && cluster.Valid()
    modifies subscriber`typeHistoryMap, subscriber`sensorsRateMap,
             cluster`latestLevel, cluster`tempDiffInfoList
    ensures cluster.Valid() && cluster.Configuration() == old(cluster.Configuration())
    ensures Service(cluster.latestLevel, seen, subscriber.State())
         == Arrive(old(cluster.Configuration()), Service(old(cluster.latestLevel), last, old(subscriber.State())),
                   Report(report, held), subscriber.historyCount, subscriber.rateCount)
  {
    if report == map[] {
      return last;
    }
    cluster.UpdateThermalLevel(Env(report, subscriber.sensorsRateMap, subscriber.rateCount, held));
    subscriber.SetHistoryTypeTempMap(report);
    return report;
  }

  /** An immediate state update: the cluster decides again on the last report. */
  method UpdateThermalState(subscriber: History.ThermalServiceSubscriber,
                            cluster: SensorCluster.ThermalConfigSensorCluster, last: map<string, int>,
                            held: set<(string, string)>)
    requires subscriber.Valid() && cluster.Valid()
    modifies cluster`latestLevel, cluster`tempDiffInfoList
    ensures cluster.Valid() && cluster.Configuration() == old(cluster.Configuration())
    ensures Service(cluster.latestLevel, last, subscriber.State())
         == Arrive(old(cluster.Configuration()), Service(old(cluster.latestLevel), last, old(subscriber.State())),
                   Redecision(held), subscriber.historyCount, subscriber.rateCount)
  {
    cluster.UpdateThermalLevel(Env(last, subscriber.sensorsRateMap, subscriber.rateCount, held));
  }

  const START := Service(0, map[], EMPTY)

  function ArriveAll(c: Config, arrivals: seq<Arrival>, historyCount: nat, rateCount: nat): (r: Service)
    requires Standard(c)
    ensures r.level <= LevelCount(c)
  {
    if arrivals == [] then START
    else Arrive(c, ArriveAll(c, arrivals[..|arrivals| - 1], historyCount, rateCount),
                arrivals[|arrivals| - 1], historyCount, rateCount)
  }

  /** The reports that are recorded: all but the empty ones. */
  function Reports(arrivals: seq<Arrival>): seq<map<string, int>> {
    if arrivals == [] then []
    else
      var a := arrivals[|arrivals| - 1];
      Reports(arrivals[..|arrivals| - 1]) + if a.Report? && !Ignored(a) then [a.report] else []
  }

  function Recorded(arrivals: seq<Arrival>): nat { |Reports(arrivals)| }

  /** The windows depend on the recorded reports alone. */
  lemma {:induction false} WindowsOfReports(c: Config, arrivals: seq<Arrival>, historyCount: nat, rateCount: nat)
    requires Standard(c)
    ensures ArriveAll(c, arrivals, historyCount, rateCount).windows
         == RecordAll(Reports(arrivals), historyCount, rateCount)
  {
    if arrivals != [] {
      var before, a := arrivals[..|arrivals| - 1], arrivals[|arrivals| - 1];
      WindowsOfReports(c, before, historyCount, rateCount);
      if a.Report? && !Ignored(a) {
        assert (Reports(before) + [a.report])[..|Reports(before)|] == Reports(before);
      } else {
        assert Reports(arrivals) == Reports(before);
      }
    }
  }

  /** With r reports recorded, no temperature window holds more than r samples, and no rate was
      computed from a full window before the window could be full. */
  ghost predicate Warming(w: Windows, r: nat, historyCount: nat) {
    && (forall s | s in w.temps :: |w.temps[s]| <= r)
    && (forall s, i | s in w.rates && 0 <= i < |w.rates[s]| ::
          w.rates[s][i] != 0.0 ==> r + i + 1 >= historyCount + |w.rates[s]|)
  }

  lemma RecordKeepsWarming(w: Windows, r: nat, report: map<string, int>, historyCount: nat, rateCount: nat)
    requires Warming(w, r, historyCount)
    ensures Warming(Record(w, report, historyCount, rateCount), r + 1, historyCount)
  {
    var w' := Record(w, report, historyCount, rateCount);
    if historyCount > 1 {
      forall s | s in w'.temps ensures |w'.temps[s]| <= r + 1 {}
      forall s, i | s in w'.rates && 0 <= i < |w'.rates[s]| && w'.rates[s][i] != 0.0
        ensures r + 1 + i + 1 >= historyCount + |w'.rates[s]|
      {
        if s in w'.temps && i == |w'.rates[s]| - 1 {
          // the new rate is not zero, so its window was full
          assert w'.rates[s][i] == RiseRate(w'.temps[s], historyCount);
        } else if s in w'.temps && |w'.rates[s]| == |w.rates[s]| {
          assert w'.rates[s][i] == w.rates[s][i + 1];
        } else {
          assert w'.rates[s][i] == w.rates[s][i];
        }
      }
    }
  }

  lemma {:induction false} RunWarms(c: Config, arrivals: seq<Arrival>, historyCount: nat, rateCount: nat)
    requires Standard(c)
    ensures Warming(ArriveAll(c, arrivals, historyCount, rateCount).windows, Recorded(arrivals), historyCount)
    ensures historyCount <= 1 ==> ArriveAll(c, arrivals, historyCount, rateCount).windows == EMPTY
  {
    if arrivals != [] {
      var before, a := arrivals[..|arrivals| - 1], arrivals[|arrivals| - 1];
      RunWarms(c, before, historyCount, rateCount);
      if a.Report? {
        RecordKeepsWarming(ArriveAll(c, before, historyCount, rateCount).windows, Recorded(before), a.report,
                           historyCount, rateCount);
      }
    }
  }

  /** Every sensor asks for a positive rise rate at level one. */
  ghost predicate RateGated(c: Config) {
    && Standard(c) && c.rate
    && forall i | 0 <= i < |c.sensors| :: c.sensors[i].items[0].tempRiseRate > 0.0
  }

  lemma ClosedGateKeepsZero(c: Config, env: Env, t: SensorTable)
    requires RateGated(c) && t in c.sensors && t.sensor in env.report
    requires SensorStep(c, env, t, 0) > 0
    ensures t.sensor in env.rates && |env.rates[t.sensor]| >= env.rateCount
    ensures forall i | 0 <= i < |env.rates[t.sensor]| :: env.rates[t.sensor][i] > 0.0
  {}

  lemma {:induction false} SomeSensorClimbs(c: Config, env: Env, k: nat)
    requires Standard(c) && k <= |c.sensors|
    requires Levels(c, env, 0, k) != [] && MaxOf(Levels(c, env, 0, k)) > 0
    ensures exists t :: t in c.sensors && t.sensor in env.report && SensorStep(c, env, t, 0) > 0
  {
    var t, rest := c.sensors[k - 1], Levels(c, env, 0, k - 1);
    if rest != [] && MaxOf(rest) > 0 {
      SomeSensorClimbs(c, env, k - 1);
    } else if rest != [] {
      ClusterTheorems.MaxOfSnoc(rest, SensorStep(c, env, t, 0));
    }
  }

  /** Warm-up: a rate-gated cluster is at level zero until historyCount + rateCount - 1 reports
      have been recorded, however often it decides again in between, and for ever when the history
      is too short to yield a rate. */
  lemma {:induction false} RateWarmUp(c: Config, arrivals: seq<Arrival>, historyCount: nat, rateCount: nat)
    requires RateGated(c) && rateCount > 0
    requires ArriveAll(c, arrivals, historyCount, rateCount).level > 0
    ensures historyCount > 1 && arrivals != []
    ensures Recorded(arrivals[..|arrivals| - 1]) >= historyCount + rateCount - 1
  {
    var before, a := arrivals[..|arrivals| - 1], arrivals[|arrivals| - 1];
    var s := ArriveAll(c, before, historyCount, rateCount);
    if s.level > 0 {
      RateWarmUp(c, before, historyCount, rateCount);
    } else {
      RunWarms(c, before, historyCount, rateCount);
      FirstClimb(c, s, a, Recorded(before), historyCount, rateCount);
    }
  }

  lemma FirstClimb(c: Config, s: Service, a: Arrival, r: nat, historyCount: nat, rateCount: nat)
    requires RateGated(c) && rateCount > 0 && s.level == 0
    requires Warming(s.windows, r, historyCount) && (historyCount <= 1 ==> s.windows == EMPTY)
    requires Arrive(c, s, a, historyCount, rateCount).level > 0
    ensures historyCount > 1 && r >= historyCount + rateCount - 1
  {
    var env := EnvOf(s, a, rateCount);
    SomeSensorClimbs(c, env, |c.sensors|);
    var t :| t in c.sensors && t.sensor in env.report && SensorStep(c, env, t, 0) > 0;
    ClosedGateKeepsZero(c, env, t);
    assert s.windows.rates[t.sensor][0] != 0.0;
  }

  // ----- empty reports -----

  function WithoutIgnored(arrivals: seq<Arrival>): seq<Arrival> {
    if arrivals == [] then []
    else
      var a := arrivals[|arrivals| - 1];
      WithoutIgnored(arrivals[..|arrivals| - 1]) + if a.Report? && a.report == map[] then [] else [a]
  }

  /** Empty reports leave no trace: neither on the levels, whatever the conditions at the time, nor on
      the windows, nor on the report that is decided on again. */
  lemma {:induction false} EmptyReportsLeaveNoTrace(c: Config, arrivals: seq<Arrival>, historyCount: nat,
                                                    rateCount: nat)
    requires Standard(c)
    ensures ArriveAll(c, arrivals, historyCount, rateCount)
         == ArriveAll(c, WithoutIgnored(arrivals), historyCount, rateCount)
  {
    if arrivals != [] {
      var front, a := arrivals[..|arrivals| - 1], arrivals[|arrivals| - 1];
      EmptyReportsLeaveNoTrace(c, front, historyCount, rateCount);
      if a.Report? && a.report == map[] {
        assert WithoutIgnored(arrivals) == WithoutIgnored(front);
      } else {
        Next(c, WithoutIgnored(front), a, historyCount, rateCount);
      }
    }
  }

  // ----- the warm-up is no longer than that -----

  /** A sensor that warms by one unit with every report. */
  function Ramp(n: nat): seq<map<string, int>> { if n == 0 then [] else Ramp(n - 1) + [map["s" := n - 1]] }

  function RampArrivals(n: nat): seq<Arrival> {
    if n == 0 then [] else RampArrivals(n - 1) + [RampReport(n - 1)]
  }

  function RampCluster(): (c: Config)
    ensures RateGated(c) && |c.sensors| == 1 && LevelCount(c) == 1 && c.states == map[]
    ensures c.sensors[0] == SensorTable("s", [LevelItem(0, 0, 12.0, 1)])
    ensures !c.desc && !c.aux && !c.tempDiff
  {
    var items := [LevelItem(0, 0, 12.0, 1)];
    assert Numbered(items);
    Config(false, false, true, false, [SensorTable("s", items)], [], [], map[])
  }

  lemma {:induction false} RampTemps(n: nat)
    ensures TempsOf(Ramp(n), "s") == seq(n, i => i)
  {
    if n > 0 {
      assert Ramp(n)[..|Ramp(n)| - 1] == Ramp(n - 1);
      RampTemps(n - 1);
    }
  }

  lemma {:induction false} RampRates(n: nat, historyCount: nat)
    requires historyCount > 1
    ensures |RatesOf(Ramp(n), "s", historyCount)| == n
    ensures forall i | historyCount - 1 <= i < n :: RatesOf(Ramp(n), "s", historyCount)[i] == 12.0
  {
    if n > 0 {
      RampRates(n - 1, historyCount);
      RampRatesSnoc(n, historyCount);
      if n >= historyCount { RampRate(n, historyCount); }
    }
  }

  lemma RampRatesSnoc(n: nat, historyCount: nat)
    requires n > 0
    ensures RatesOf(Ramp(n), "s", historyCount)
         == RatesOf(Ramp(n - 1), "s", historyCount) + [RiseRate(Newest(seq(n, i => i), historyCount), historyCount)]
  {
    assert Ramp(n)[..|Ramp(n)| - 1] == Ramp(n - 1);
    RampTemps(n);
  }

  lemma RampRate(n: nat, historyCount: nat)
    requires n >= historyCount > 1
    ensures RiseRate(Newest(seq(n, i => i), historyCount), historyCount) == 12.0
  {
    var q := Newest(seq(n, i => i), historyCount);
    SlopeExactOnLines(q, n - 1, -1, historyCount);
  }

  function RampReport(n: nat): (a: Arrival)
    ensures !Ignored(a)
  {
    var report := map["s" := n];
    assert "s" in report;
    Report(report, {})
  }

  lemma {:induction false} RampReports(n: nat)
    ensures Reports(RampArrivals(n)) == Ramp(n)
  {
    if n > 0 {
      RampReports(n - 1);
      ReportsSnoc(RampArrivals(n - 1), RampReport(n - 1));
    }
  }

  lemma ReportsSnoc(arrivals: seq<Arrival>, a: Arrival)
    requires a.Report? && !Ignored(a)
    ensures Reports(arrivals + [a]) == Reports(arrivals) + [a.report]
  {
    assert (arrivals + [a])[..|arrivals|] == arrivals;
  }

  /** The windows after exactly that many reports: all rates are those of the ramp. */
  lemma WarmedUp(historyCount: nat, rateCount: nat, n: nat)
    requires historyCount > 1 && rateCount > 0 && n == historyCount + rateCount - 1
    ensures var s := ArriveAll(RampCluster(), RampArrivals(n), historyCount, rateCount);
            && s.last == map["s" := n - 1]
            && "s" in s.windows.rates && |s.windows.rates["s"]| == rateCount
            && forall i | 0 <= i < rateCount :: s.windows.rates["s"][i] == 12.0
  {
    RampReports(n);
    WindowsOfReports(RampCluster(), RampArrivals(n), historyCount, rateCount);
    RampRateWindow(n, historyCount, rateCount);
    RampLast(RampCluster(), n, historyCount, rateCount);
  }

  lemma {:induction false} RampRecorded(n: nat)
    ensures Recorded(RampArrivals(n)) == n
  {
    if n > 0 {
      RampRecorded(n - 1);
      ReportsSnoc(RampArrivals(n - 1), RampReport(n - 1));
    }
  }

  /** The bound is exact: with exactly historyCount + rateCount - 1 reports recorded, a steadily
      warming sensor lifts its cluster out of level zero at the next decision, be it on the next
      report or again on the last one. */
  lemma WarmUpIsExact(historyCount: nat, rateCount: nat, n: nat, a: Arrival)
    requires historyCount > 1 && rateCount > 0 && n == historyCount + rateCount - 1
    requires a == RampReport(n) || a == Redecision({})
    ensures Recorded(RampArrivals(n)) == n
    ensures ArriveAll(RampCluster(), RampArrivals(n) + [a], historyCount, rateCount).level > 0
  {
    var c := RampCluster();
    var s := ArriveAll(c, RampArrivals(n), historyCount, rateCount);
    RampRecorded(n);
    WarmedUp(historyCount, rateCount, n);
    Next(c, RampArrivals(n), a, historyCount, rateCount);
    RampArrives(c, s, a, historyCount, rateCount);
  }

  lemma Next(c: Config, arrivals: seq<Arrival>, a: Arrival, historyCount: nat, rateCount: nat)
    requires Standard(c)
    ensures ArriveAll(c, arrivals + [a], historyCount, rateCount)
         == Arrive(c, ArriveAll(c, arrivals, historyCount, rateCount), a, historyCount, rateCount)
  {
    assert (arrivals + [a])[..|arrivals|] == arrivals;
  }

  lemma RampLast(c: Config, n: nat, historyCount: nat, rateCount: nat)
    requires Standard(c) && n > 0
    ensures ArriveAll(c, RampArrivals(n), historyCount, rateCount).last == map["s" := n - 1]
  {
    Next(c, RampArrivals(n - 1), RampReport(n - 1), historyCount, rateCount);
  }

  lemma RampRateWindow(n: nat, historyCount: nat, rateCount: nat)
    requires historyCount > 1 && rateCount > 0 && n == historyCount + rateCount - 1
    ensures var rates := RecordAll(Ramp(n), historyCount, rateCount).rates;
            && "s" in rates && |rates["s"]| == rateCount
            && forall i | 0 <= i < rateCount :: rates["s"][i] == 12.0
  {
    var reports := Ramp(n);
    var rs := RatesOf(reports, "s", historyCount);
    RampTemps(n);
    RampRates(n, historyCount);
    assert TempsOf(reports, "s") != [];
    WindowsAreExact(reports, "s", historyCount, rateCount);
    LastOf(rs, historyCount - 1, rateCount);
  }

  lemma LastOf(rs: seq<real>, from: nat, n: nat)
    requires |rs| == from + n && forall i | from <= i < |rs| :: rs[i] == 12.0
    ensures |Last(rs, n)| == n && forall i | 0 <= i < n :: Last(rs, n)[i] == 12.0
  {}

  lemma RampArrives(c: Config, s: Service, a: Arrival, historyCount: nat, rateCount: nat)
    requires c == RampCluster() && s.level <= LevelCount(c)
    requires "s" in s.windows.rates && |s.windows.rates["s"]| == rateCount
    requires forall i | 0 <= i < rateCount :: s.windows.rates["s"][i] == 12.0
    requires var report := EnvOf(s, a, rateCount).report; "s" in report && report["s"] >= 0
    ensures Arrive(c, s, a, historyCount, rateCount).level == 1
  {
    var env := EnvOf(s, a, rateCount);
    RampOpensGate(c, env);
    ClusterTheorems.OneSensorLevels(c, env, s.level);
  }

  lemma RampOpensGate(c: Config, env: Env)
    requires c == RampCluster() && "s" in env.report && env.report["s"] >= 0
    requires "s" in env.rates && |env.rates["s"]| == env.rateCount
    requires forall i | 0 <= i < |env.rates["s"]| :: env.rates["s"][i] == 12.0
    ensures SensorStep(c, env, c.sensors[0], 0) == 1
    ensures SensorStep(c, env, c.sensors[0], 1) == 1
  {}
}
