/** The subscriber's two sliding windows per sensor: recent temperatures and recent rise rates. */
module History {
  import opened Slope

  /** `temps` holds temperatures newest first, `rates` holds rates oldest first. */
  datatype Windows = Windows(temps: map<string, seq<int>>, rates: map<string, seq<real>>)

  const EMPTY: Windows := Windows(map[], map[])

  function PushTemp(w: seq<int>, x: int, cap: nat): (r: seq<int>)
    ensures r != []
  {
    if |w| >= cap && w != [] then [x] + w[..|w| - 1] else [x] + w
  }

  function PushRate(w: seq<real>, x: real, cap: nat): (r: seq<real>)
    ensures r != []
  {
    if |w| >= cap && w != [] then w[1..] + [x] else w + [x]
  }

  function TempsAfter(temps: map<string, seq<int>>, report: map<string, int>, done: set<string>, cap: nat)
    : map<string, seq<int>>
    requires done <= report.Keys
  {
    map s | s in temps.Keys + done ::
      if s !in done then temps[s] else if s in temps then PushTemp(temps[s], report[s], cap) else [report[s]]
  }

  function RatesAfter(rates: map<string, seq<real>>, temps: map<string, seq<int>>, done: set<string>,
                      historyCount: nat, cap: nat): map<string, seq<real>>
    requires done <= temps.Keys
  {
    map s | s in rates.Keys + done ::
      if s !in done then rates[s]
      else if s in rates then PushRate(rates[s], RiseRate(temps[s], historyCount), cap)
      else [RiseRate(temps[s], historyCount)]
  }

  lemma TempsAfterOne(temps: map<string, seq<int>>, report: map<string, int>, done: set<string>, s: string,
                      cap: nat)
    requires done <= report.Keys && s in report && s !in done
    ensures TempsAfter(temps, report, done + {s}, cap)
         == TempsAfter(temps, report, done, cap)
              [s := if s in temps then PushTemp(temps[s], report[s], cap) else [report[s]]]
  {}

  lemma RatesAfterOne(rates: map<string, seq<real>>, temps: map<string, seq<int>>, done: set<string>, s: string,
                      historyCount: nat, cap: nat)
    requires done <= temps.Keys && s in temps && s !in done
    ensures RatesAfter(rates, temps, done + {s}, historyCount, cap)
         == RatesAfter(rates, temps, done, historyCount, cap)
              [s := if s in rates then PushRate(rates[s], RiseRate(temps[s], historyCount), cap)
                    else [RiseRate(temps[s], historyCount)]]
  {}

  /** What recording one report does to the windows. */
  function Record(w: Windows, report: map<string, int>, historyCount: nat, rateCount: nat): Windows {
    if historyCount <= 1 then w
    else
      var temps := TempsAfter(w.temps, report, report.Keys, historyCount);
      Windows(temps, RatesAfter(w.rates, temps, temps.Keys, historyCount, rateCount))
  }

  class ThermalServiceSubscriber {
    var historyCount: nat
    var rateCount: nat
    var typeHistoryMap: map<string, seq<int>>
    var sensorsRateMap: map<string, seq<real>>

    ghost function State(): Windows
      reads this
    {
      Windows(typeHistoryMap, sensorsRateMap)
    }

    ghost predicate Valid()
      reads this
    {
      rateCount > 0
    }

    constructor ()
      ensures Valid() && State() == EMPTY && historyCount == 0 && rateCount == 3
    {
      historyCount, rateCount := 0, 3;
      typeHistoryMap, sensorsRateMap := map[], map[];
    }

    /** A configured rate count of zero leaves the default in place. */
    method Init(historyTempCount: nat, riseRateCount: nat)
      requires Valid()
      modifies this`historyCount, this`rateCount
      ensures Valid() && historyCount == historyTempCount
      ensures rateCount == if riseRateCount == 0 then old(rateCount) else riseRateCount
    {
      historyCount := historyTempCount;
      rateCount := if riseRateCount <= 0 then rateCount else riseRateCount;
    }

    method SetHistoryTypeTempMap(typeTempMap: map<string, int>)
      requires Valid()
      modifies this`typeHistoryMap, this`sensorsRateMap
      ensures State() == Record(old(State()), typeTempMap, historyCount, rateCount)
    {
      if historyCount <= 1 {
        return;
      }
      PushTemperatures(typeTempMap);
      PushRates();
    }

    /** The first loop of `SetHistoryTypeTempMap`. */
    method PushTemperatures(typeTempMap: map<string, int>)
      requires historyCount > 1
      modifies this`typeHistoryMap
      ensures typeHistoryMap == TempsAfter(old(typeHistoryMap), typeTempMap, typeTempMap.Keys, historyCount)
    {
      var todo := typeTempMap.Keys;
      ghost var done: set<string> := {};
      while todo != {}
        invariant done + todo == typeTempMap.Keys && done !! todo
        invariant typeHistoryMap == TempsAfter(old(typeHistoryMap), typeTempMap, done, historyCount)
        decreases todo
      {
        var sensor :| sensor in todo;
        TempsAfterOne(old(typeHistoryMap), typeTempMap, done, sensor, historyCount);
        if sensor in typeHistoryMap {
          var history := typeHistoryMap[sensor];
          if |history| >= historyCount {
            history := history[..|history| - 1];
          }
          typeHistoryMap := typeHistoryMap[sensor := [typeTempMap[sensor]] + history];
        } else {
          typeHistoryMap := typeHistoryMap[sensor := [typeTempMap[sensor]]];
        }
        todo, done := todo - {sensor}, done + {sensor};
      }
    }

    /** The second loop of `SetHistoryTypeTempMap`. */
    method PushRates()
      requires Valid()
      modifies this`sensorsRateMap
      ensures sensorsRateMap
           == RatesAfter(old(sensorsRateMap), typeHistoryMap, typeHistoryMap.Keys, historyCount, rateCount)
    {
      var todo := typeHistoryMap.Keys;
      ghost var done: set<string> := {};
      while todo != {}
        invariant done + todo == typeHistoryMap.Keys && done !! todo
        invariant sensorsRateMap
               == RatesAfter(old(sensorsRateMap), typeHistoryMap, done, historyCount, rateCount)
        decreases todo
      {
        var sensor :| sensor in todo;
        var rate := GetThermalRiseRate(typeHistoryMap[sensor], historyCount);
        RatesAfterOne(old(sensorsRateMap), typeHistoryMap, done, sensor, historyCount, rateCount);
        if sensor in sensorsRateMap {
          var rates := sensorsRateMap[sensor];
          if |rates| >= rateCount {
            rates := rates[1..];
          }
          sensorsRateMap := sensorsRateMap[sensor := rates + [rate]];
        } else {
          sensorsRateMap := sensorsRateMap[sensor := [rate]];
        }
        todo, done := todo - {sensor}, done + {sensor};
      }
    }
  }

  // ----- what the windows hold after a whole run -----

  function RecordAll(reports: seq<map<string, int>>, historyCount: nat, rateCount: nat): Windows {
    if reports == [] then EMPTY
    else Record(RecordAll(reports[..|reports| - 1], historyCount, rateCount), reports[|reports| - 1],
                historyCount, rateCount)
  }

  /** The temperatures reported for one sensor, oldest first. */
  function TempsOf(reports: seq<map<string, int>>, sensor: string): seq<int> {
    if reports == [] then [] else
      var rest, report := TempsOf(reports[..|reports| - 1], sensor), reports[|reports| - 1];
      if sensor in report then rest + [report[sensor]] else rest
  }

  /** The newest n entries of a list that grows at its end, newest first. */
  function Newest(ts: seq<int>, n: nat): (r: seq<int>)
    ensures |r| == if |ts| < n then |ts| else n
    ensures forall i | 0 <= i < |r| :: r[i] == ts[|ts| - 1 - i]
  {
    if ts == [] || n == 0 then [] else [ts[|ts| - 1]] + Newest(ts[..|ts| - 1], n - 1)
  }

  /** The rates computed for one sensor: one after every report since the first that named it. */
  function RatesOf(reports: seq<map<string, int>>, sensor: string, historyCount: nat): seq<real> {
    if TempsOf(reports, sensor) == [] then []
    else RatesOf(reports[..|reports| - 1], sensor, historyCount)
           + [RiseRate(Newest(TempsOf(reports, sensor), historyCount), historyCount)]
  }

  function Last(rs: seq<real>, n: nat): seq<real> { if |rs| <= n then rs else rs[|rs| - n..] }

  lemma PushTempIsNewest(ts: seq<int>, x: int, cap: nat)
    requires cap > 0
    ensures PushTemp(Newest(ts, cap), x, cap) == Newest(ts + [x], cap)
  {
    var pushed, newest := PushTemp(Newest(ts, cap), x, cap), Newest(ts + [x], cap);
    forall i | 0 <= i < |newest| ensures pushed[i] == newest[i] {
      assert newest[i] == (ts + [x])[|ts| - i];
    }
  }

  lemma PushRateIsLast(rs: seq<real>, x: real, cap: nat)
    requires cap > 0
    ensures PushRate(Last(rs, cap), x, cap) == Last(rs + [x], cap)
  {}

  /** After any run of reports, a sensor's temperature window is exactly its newest temperatures,
      newest first, and its rate window exactly the last rates computed for it, oldest first. */
  lemma {:induction false} WindowsAreExact(reports: seq<map<string, int>>, sensor: string,
                                           historyCount: nat, rateCount: nat)
    requires historyCount > 1 && rateCount > 0
    ensures var w := RecordAll(reports, historyCount, rateCount);
            var ts, rs := TempsOf(reports, sensor), RatesOf(reports, sensor, historyCount);
            && (sensor in w.temps <==> ts != []) && (sensor in w.rates <==> ts != [])
            && (ts != [] ==> w.temps[sensor] == Newest(ts, historyCount))
            && (ts != [] ==> w.rates[sensor] == Last(rs, rateCount))
  {
    if reports != [] {
      var before, report := reports[..|reports| - 1], reports[|reports| - 1];
      WindowsAreExact(before, sensor, historyCount, rateCount);
      var ts := TempsOf(before, sensor);
      var rate := RiseRate(Newest(TempsOf(reports, sensor), historyCount), historyCount);
      if sensor in report { PushTempIsNewest(ts, report[sensor], historyCount); }
      if ts != [] { PushRateIsLast(RatesOf(before, sensor, historyCount), rate, rateCount); }
    }
  }
}
