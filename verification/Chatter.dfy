/**
 The gap between trigger and clear keeps a level from chattering: however the temperatures of an
 ungated cluster move, every crossing of a level after the first has been paid for with at least
 the narrowest gap any sensor has at that level.
 */
module Chatter {
  import opened Hysteresis
  import opened ClusterSpec
  import opened ClusterTheorems

  // ----- positions and crossings -----

  /** How far the positions have moved, up and down together. */
  function Variation(ps: seq<int>): nat {
    if |ps| < 2 then 0 else Variation(ps[..|ps| - 1]) + Abs(ps[|ps| - 1] - ps[|ps| - 2])
  }

  /** The changes of `above` along the run, in order; true is an upward one. */
  function Crossings(above: seq<bool>): seq<bool> {
    if |above| < 2 then [] else
      var was, now := above[|above| - 2], above[|above| - 1];
      if was == now then Crossings(above[..|above| - 1]) else Crossings(above[..|above| - 1]) + [now]
  }

  /** The price of n crossings, the first being free. */
  function Price(n: nat, gap: int): int { if n <= 1 then 0 else Price(n - 1, gap) + gap }

  lemma {:induction false} PriceIsProduct(n: nat, gap: nat)
    ensures Price(n, gap) >= (n - 1) * gap
  {
    if n > 1 { PriceIsProduct(n - 1, gap); }
  }

  /** How far the position is from where the next crossing could happen. */
  function Slack(above: bool, position: int, trigger: int, clear: int): nat {
    if above then Max(0, trigger - position) else Max(0, position - clear)
  }

  /** Crossing upwards takes the trigger, crossing downwards falling below the clear. */
  ghost predicate Lawful(ps: seq<int>, above: seq<bool>, trigger: int, clear: int) {
    && clear <= trigger
    && |above| == |ps| + 1
    && forall i | 0 <= i < |ps| ::
         && (!above[i] && above[i + 1] ==> ps[i] >= trigger)
         && (above[i] && !above[i + 1] ==> ps[i] < clear)
  }

  lemma {:induction false} VariationPaysForCrossings(ps: seq<int>, above: seq<bool>, trigger: int, clear: int)
    requires Lawful(ps, above, trigger, clear)
    ensures Crossings(above) != [] ==>
              Variation(ps) >= Price(|Crossings(above)|, trigger - clear)
                + Slack(above[|ps|], ps[|ps| - 1], trigger, clear)
  {
    if ps != [] {
      VariationPaysForCrossings(ps[..|ps| - 1], above[..|ps|], trigger, clear);
      if |ps| == 1 { assert Crossings(above[..1]) == []; }
    }
  }

  lemma LawfulBound(ps: seq<int>, above: seq<bool>, trigger: int, clear: int, gap: nat)
    requires Lawful(ps, above, trigger, clear) && gap == trigger - clear
    ensures (|Crossings(above)| - 1) * gap <= Variation(ps)
  {
    VariationPaysForCrossings(ps, above, trigger, clear);
    PriceIsProduct(|Crossings(above)|, gap);
  }

  // ----- an ungated cluster -----

  /** An ungated, unconditional cluster all of whose sensors are in every report. Its tables may be
      unsorted. */
  ghost predicate FullyReported(c: Config, envs: seq<Env>) {
    && Standard(c) && Ungated(c) && c.states == map[]
    && AllReported(c, envs)
  }

  ghost predicate AllReported(c: Config, envs: seq<Env>) {
    forall i | 0 <= i < |envs| :: HasAll(c, envs[i])
  }

  ghost predicate HasAll(c: Config, env: Env) {
    forall s | 0 <= s < |c.sensors| :: c.sensors[s].sensor in env.report
  }

  /** The position of a temperature along the table: the hotter of an ascending table and the
      colder of a descending one is the further. */
  function Along(desc: bool, temp: int): int { if desc then -temp else temp }

  function Position(c: Config, env: Env, s: nat): int
    requires s < |c.sensors| && c.sensors[s].sensor in env.report
  {
    Along(c.desc, env.report[c.sensors[s].sensor])
  }

  function Trigger(c: Config, k: nat, s: nat): int
    requires s < |c.sensors| && 1 <= k <= |c.sensors[s].items|
  {
    Along(c.desc, c.sensors[s].items[k - 1].threshold)
  }

  function Clear(c: Config, k: nat, s: nat): int
    requires s < |c.sensors| && 1 <= k <= |c.sensors[s].items|
  {
    Along(c.desc, c.sensors[s].items[k - 1].thresholdClr)
  }

  /** Whether the level is at least k, before the first report and after each one. */
  function AtLeast(c: Config, envs: seq<Env>, level: nat, k: nat): seq<bool>
    requires Standard(c) && level <= LevelCount(c)
  {
    seq(|envs| + 1, i requires 0 <= i <= |envs| => ClusterRun(c, envs[..i], level) >= k)
  }

  ghost predicate SomeTriggers(c: Config, env: Env, k: nat)
    requires Standard(c) && HasAll(c, env) && 1 <= k <= LevelCount(c)
  {
    exists s | 0 <= s < |c.sensors| :: Position(c, env, s) >= Trigger(c, k, s)
  }

  ghost predicate AllCleared(c: Config, env: Env, k: nat)
    requires Standard(c) && HasAll(c, env) && 1 <= k <= LevelCount(c)
  {
    forall s | 0 <= s < |c.sensors| :: Position(c, env, s) < Clear(c, k, s)
  }

  lemma SensorCrossing(c: Config, env: Env, level: nat, k: nat, s: nat)
    requires FullyReported(c, [env]) && HasAll(c, env) && s < |c.sensors|
    requires level <= LevelCount(c) && 1 <= k <= LevelCount(c)
    ensures level < k <= SensorStep(c, env, c.sensors[s], level) ==> Position(c, env, s) >= Trigger(c, k, s)
    ensures SensorStep(c, env, c.sensors[s], level) < k <= level ==> Position(c, env, s) < Clear(c, k, s)
  {
    var t := c.sensors[s];
    var signals := SignalsOf(c, env, t, env.report[t.sensor]);
    var m := Step(signals, level);
    if level < k <= m { assert signals.enter[k - 1]; }
    if m < k <= level { assert !signals.keep[k - 1]; }
  }

  /** A level is entered only when some sensor is at or beyond its trigger, and left only when
      every sensor is short of its clear. */
  lemma CrossingTemperature(c: Config, env: Env, level: nat, k: nat)
    requires FullyReported(c, [env]) && HasAll(c, env)
    requires level <= LevelCount(c) && 1 <= k <= LevelCount(c)
    ensures level < k <= ClusterStep(c, env, level) ==> SomeTriggers(c, env, k)
    ensures ClusterStep(c, env, level) < k <= level ==> AllCleared(c, env, k)
  {
    var r, n := ClusterStep(c, env, level), |c.sensors|;
    LevelsHave(c, env, level, n, 0);
    if level < k <= r {
      LevelsOnlyHave(c, env, level, n, r);
      var s :| 0 <= s < n && c.sensors[s].sensor in env.report && r == SensorStep(c, env, c.sensors[s], level);
      SensorCrossing(c, env, level, k, s);
    }
    if r < k <= level {
      forall s | 0 <= s < n ensures Position(c, env, s) < Clear(c, k, s) {
        LevelsHave(c, env, level, n, s);
        SensorCrossing(c, env, level, k, s);
      }
    }
  }

  // ----- crossings in a run -----

  /** The report after which the level changes from below k to at least k, or back. */
  ghost predicate CrossesAt(c: Config, envs: seq<Env>, level: nat, k: nat, i: nat)
    requires Standard(c) && level <= LevelCount(c) && i < |envs|
  {
    AtLeast(c, envs, level, k)[i] != AtLeast(c, envs, level, k)[i + 1]
  }

  lemma CrossingInRun(c: Config, envs: seq<Env>, level: nat, k: nat, i: nat)
    requires FullyReported(c, envs) && level <= LevelCount(c) && 1 <= k <= LevelCount(c) && i < |envs|
    requires CrossesAt(c, envs, level, k, i)
    ensures HasAll(c, envs[i])
    ensures if AtLeast(c, envs, level, k)[i] then AllCleared(c, envs[i], k) else SomeTriggers(c, envs[i], k)
  {
    assert HasAll(c, envs[i]);
    assert envs[..i + 1][..i] == envs[..i];
    CrossingTemperature(c, envs[i], ClusterRun(c, envs[..i], level), k);
  }

  /** Between two crossings without another one the level stays on one side. */
  lemma {:induction false} SideStays(c: Config, envs: seq<Env>, level: nat, k: nat, i: nat, j: nat)
    requires Standard(c) && level <= LevelCount(c) && i <= j <= |envs|
    requires forall m | i <= m < j :: !CrossesAt(c, envs, level, k, m)
    ensures AtLeast(c, envs, level, k)[i] == AtLeast(c, envs, level, k)[j]
    decreases j - i
  {
    if i < j {
      assert !CrossesAt(c, envs, level, k, i);
      SideStays(c, envs, level, k, i + 1, j);
    }
  }

  /** Some sensor is at or beyond the trigger of level k in one report, and short of the clear in
      the other, so it has moved by more than its gap. */
  ghost predicate AcrossTheGap(c: Config, up: Env, down: Env, k: nat)
    requires Standard(c) && HasAll(c, up) && HasAll(c, down) && 1 <= k <= LevelCount(c)
  {
    exists s | 0 <= s < |c.sensors| ::
      && Position(c, up, s) >= Trigger(c, k, s) && Position(c, down, s) < Clear(c, k, s)
      && Position(c, up, s) - Position(c, down, s) > Trigger(c, k, s) - Clear(c, k, s)
  }

  ghost predicate FarApart(c: Config, envs: seq<Env>, level: nat, k: nat, i: nat, j: nat)
    requires FullyReported(c, envs) && level <= LevelCount(c) && 1 <= k <= LevelCount(c) && i < |envs| && j < |envs|
  {
    assert HasAll(c, envs[i]) && HasAll(c, envs[j]);
    if AtLeast(c, envs, level, k)[i] then AcrossTheGap(c, envs[j], envs[i], k)
    else AcrossTheGap(c, envs[i], envs[j], k)
  }

  lemma OppositeCrossing(c: Config, envs: seq<Env>, level: nat, k: nat, i: nat, j: nat)
    requires FullyReported(c, envs) && level <= LevelCount(c) && 1 <= k <= LevelCount(c) && i < j < |envs|
    requires CrossesAt(c, envs, level, k, i) && CrossesAt(c, envs, level, k, j)
    requires AtLeast(c, envs, level, k)[i] != AtLeast(c, envs, level, k)[j]
    ensures FarApart(c, envs, level, k, i, j)
  {
    CrossingInRun(c, envs, level, k, i);
    CrossingInRun(c, envs, level, k, j);
    var up, down := if AtLeast(c, envs, level, k)[i] then envs[j] else envs[i],
                    if AtLeast(c, envs, level, k)[i] then envs[i] else envs[j];
    var s :| 0 <= s < |c.sensors| && Position(c, up, s) >= Trigger(c, k, s);
    assert Position(c, down, s) < Clear(c, k, s);
  }

  /** Between two crossings of a level in opposite directions some sensor has moved from one side of
      its gap to the other. */
  lemma OppositeCrossingsFarApart(c: Config, envs: seq<Env>, level: nat, k: nat)
    requires FullyReported(c, envs) && level <= LevelCount(c) && 1 <= k <= LevelCount(c)
    ensures forall i: nat, j: nat | i < j < |envs| && CrossesAt(c, envs, level, k, i) && CrossesAt(c, envs, level, k, j)
              :: AtLeast(c, envs, level, k)[i] != AtLeast(c, envs, level, k)[j] ==> FarApart(c, envs, level, k, i, j)
  {
    forall i: nat, j: nat | i < j < |envs| && CrossesAt(c, envs, level, k, i) && CrossesAt(c, envs, level, k, j) &&
                            AtLeast(c, envs, level, k)[i] != AtLeast(c, envs, level, k)[j]
      ensures FarApart(c, envs, level, k, i, j)
    {
      OppositeCrossing(c, envs, level, k, i, j);
    }
  }

  /** Two crossings with none between them. */
  ghost predicate Consecutive(c: Config, envs: seq<Env>, level: nat, k: nat, i: nat, j: nat)
    requires Standard(c) && level <= LevelCount(c)
  {
    && i < j < |envs| && CrossesAt(c, envs, level, k, i) && CrossesAt(c, envs, level, k, j)
    && forall m | i < m < j :: !CrossesAt(c, envs, level, k, m)
  }

  /** Consecutive crossings always are in opposite directions. */
  lemma ConsecutiveAreOpposite(c: Config, envs: seq<Env>, level: nat, k: nat, i: nat, j: nat)
    requires Standard(c) && level <= LevelCount(c) && Consecutive(c, envs, level, k, i, j)
    ensures AtLeast(c, envs, level, k)[i] != AtLeast(c, envs, level, k)[j]
  {
    SideStays(c, envs, level, k, i + 1, j);
  }

  lemma ConsecutiveCrossingsFarApart(c: Config, envs: seq<Env>, level: nat, k: nat)
    requires FullyReported(c, envs) && level <= LevelCount(c) && 1 <= k <= LevelCount(c)
    ensures forall i: nat, j: nat | Consecutive(c, envs, level, k, i, j) :: FarApart(c, envs, level, k, i, j)
  {
    forall i: nat, j: nat | Consecutive(c, envs, level, k, i, j) ensures FarApart(c, envs, level, k, i, j) {
      ConsecutiveAreOpposite(c, envs, level, k, i, j);
      OppositeCrossing(c, envs, level, k, i, j);
    }
  }

  // ----- one virtual sensor -----

  /** How far beyond its clear the furthest of the first n sensors is. */
  function Furthest(c: Config, env: Env, k: nat, n: nat): int
    requires Standard(c) && HasAll(c, env) && 1 <= k <= LevelCount(c) && 1 <= n <= |c.sensors|
  {
    var x := Position(c, env, n - 1) - Clear(c, k, n - 1);
    if n == 1 then x else Max(Furthest(c, env, k, n - 1), x)
  }

  /** The positions of a cluster that is looked at as one sensor. */
  function Track(c: Config, envs: seq<Env>, k: nat): (ps: seq<int>)
    requires FullyReported(c, envs) && 1 <= k <= LevelCount(c)
    ensures |ps| == |envs|
    ensures forall i | 0 <= i < |envs| :: HasAll(c, envs[i]) && ps[i] == Furthest(c, envs[i], k, |c.sensors|)
  {
    if envs == [] then []
    else
      assert HasAll(c, envs[|envs| - 1]);
      Track(c, envs[..|envs| - 1], k) + [Furthest(c, envs[|envs| - 1], k, |c.sensors|)]
  }

  lemma {:induction false} FurthestBounds(c: Config, env: Env, k: nat, n: nat, s: nat)
    requires Standard(c) && HasAll(c, env) && 1 <= k <= LevelCount(c) && s < n <= |c.sensors|
    ensures Furthest(c, env, k, n) >= Position(c, env, s) - Clear(c, k, s)
  {
    if s < n - 1 { FurthestBounds(c, env, k, n - 1, s); }
  }

  lemma {:induction false} FurthestIsCleared(c: Config, env: Env, k: nat, n: nat)
    requires Standard(c) && HasAll(c, env) && 1 <= k <= LevelCount(c) && 1 <= n <= |c.sensors| && AllCleared(c, env, k)
    ensures Furthest(c, env, k, n) < 0
  {
    if n > 1 { FurthestIsCleared(c, env, k, n - 1); }
  }

  /** The gap of every sensor at level k is at least this wide. */
  ghost predicate GapsAtLeast(c: Config, k: nat, gap: nat)
    requires Standard(c) && 1 <= k <= LevelCount(c)
  {
    forall s | 0 <= s < |c.sensors| :: Trigger(c, k, s) - Clear(c, k, s) >= gap
  }

  lemma TrackIsLawful(c: Config, envs: seq<Env>, level: nat, k: nat, gap: nat)
    requires FullyReported(c, envs) && level <= LevelCount(c) && 1 <= k <= LevelCount(c) && GapsAtLeast(c, k, gap)
    ensures Lawful(Track(c, envs, k), AtLeast(c, envs, level, k), gap, 0)
  {
    var above, ps := AtLeast(c, envs, level, k), Track(c, envs, k);
    forall i | 0 <= i < |envs| && above[i] != above[i + 1]
      ensures if above[i] then ps[i] < 0 else ps[i] >= gap
    {
      assert CrossesAt(c, envs, level, k, i);
      CrossingInRun(c, envs, level, k, i);
      if above[i] {
        FurthestIsCleared(c, envs[i], k, |c.sensors|);
      } else {
        var s :| 0 <= s < |c.sensors| && Position(c, envs[i], s) >= Trigger(c, k, s);
        FurthestBounds(c, envs[i], k, |c.sensors|, s);
        assert Trigger(c, k, s) - Clear(c, k, s) >= gap;
      }
    }
  }

  // ----- the virtual sensor moves no more than all sensors together -----

  function PositionsOf(c: Config, envs: seq<Env>, s: nat): (ps: seq<int>)
    requires AllReported(c, envs) && s < |c.sensors|
    ensures |ps| == |envs|
  {
    if envs == [] then []
    else
      assert HasAll(c, envs[|envs| - 1]);
      PositionsOf(c, envs[..|envs| - 1], s) + [Position(c, envs[|envs| - 1], s)]
  }

  /** The variations of the first n sensors, added up. */
  function TotalVariation(c: Config, envs: seq<Env>, n: nat): nat
    requires AllReported(c, envs) && n <= |c.sensors|
  {
    if n == 0 then 0 else TotalVariation(c, envs, n - 1) + Variation(PositionsOf(c, envs, n - 1))
  }

  /** How far the first n sensors move from one report to the next, together. */
  function Moves(c: Config, e: Env, f: Env, n: nat): nat
    requires HasAll(c, e) && HasAll(c, f) && n <= |c.sensors|
  {
    if n == 0 then 0 else Moves(c, e, f, n - 1) + Abs(Position(c, f, n - 1) - Position(c, e, n - 1))
  }

  lemma {:induction false} FurthestMoves(c: Config, e: Env, f: Env, k: nat, n: nat)
    requires Standard(c) && HasAll(c, e) && HasAll(c, f) && 1 <= k <= LevelCount(c) && 1 <= n <= |c.sensors|
    ensures Abs(Furthest(c, f, k, n) - Furthest(c, e, k, n)) <= Moves(c, e, f, n)
  {
    if n > 1 { FurthestMoves(c, e, f, k, n - 1); }
  }

  lemma VariationSnoc(ps: seq<int>, x: int)
    ensures Variation(ps + [x]) == Variation(ps) + if ps == [] then 0 else Abs(x - ps[|ps| - 1])
  {
    assert (ps + [x])[..|ps|] == ps;
  }

  lemma PositionsSnoc(c: Config, envs: seq<Env>, f: Env, s: nat)
    requires AllReported(c, envs + [f]) && AllReported(c, envs) && HasAll(c, f) && s < |c.sensors|
    ensures PositionsOf(c, envs + [f], s) == PositionsOf(c, envs, s) + [Position(c, f, s)]
  {
    assert (envs + [f])[..|envs|] == envs;
  }

  lemma OneSensorMoves(c: Config, envs: seq<Env>, e: Env, f: Env, s: nat)
    requires AllReported(c, envs + [e] + [f]) && AllReported(c, envs + [e]) && AllReported(c, envs)
    requires HasAll(c, e) && HasAll(c, f) && s < |c.sensors|
    ensures Variation(PositionsOf(c, envs + [e] + [f], s))
         == Variation(PositionsOf(c, envs + [e], s)) + Abs(Position(c, f, s) - Position(c, e, s))
  {
    PositionsSnoc(c, envs, e, s);
    PositionsSnoc(c, envs + [e], f, s);
    VariationSnoc(PositionsOf(c, envs + [e], s), Position(c, f, s));
  }

  /** From `before` to `after` sensor s has moved as far as from e to f. */
  ghost predicate MovesOn(c: Config, before: seq<Env>, after: seq<Env>, e: Env, f: Env, s: nat)
    requires AllReported(c, before) && AllReported(c, after) && HasAll(c, e) && HasAll(c, f) && s < |c.sensors|
  {
    Variation(PositionsOf(c, after, s))
    == Variation(PositionsOf(c, before, s)) + Abs(Position(c, f, s) - Position(c, e, s))
  }

  lemma {:induction false} MovesAddUp(c: Config, before: seq<Env>, after: seq<Env>, e: Env, f: Env, n: nat)
    requires AllReported(c, before) && AllReported(c, after) && HasAll(c, e) && HasAll(c, f) && n <= |c.sensors|
    requires forall s | 0 <= s < n :: MovesOn(c, before, after, e, f, s)
    ensures TotalVariation(c, after, n) == TotalVariation(c, before, n) + Moves(c, e, f, n)
  {
    if n > 0 {
      assert MovesOn(c, before, after, e, f, n - 1);
      MovesAddUp(c, before, after, e, f, n - 1);
    }
  }

  lemma TotalVariationStep(c: Config, envs: seq<Env>, e: Env, f: Env)
    requires AllReported(c, envs + [e] + [f]) && AllReported(c, envs + [e]) && AllReported(c, envs)
    requires HasAll(c, e) && HasAll(c, f)
    ensures TotalVariation(c, envs + [e] + [f], |c.sensors|)
         == TotalVariation(c, envs + [e], |c.sensors|) + Moves(c, e, f, |c.sensors|)
  {
    forall s | 0 <= s < |c.sensors| ensures MovesOn(c, envs + [e], envs + [e] + [f], e, f, s) {
      OneSensorMoves(c, envs, e, f, s);
    }
    MovesAddUp(c, envs + [e], envs + [e] + [f], e, f, |c.sensors|);
  }

  lemma TrackStep(c: Config, envs: seq<Env>, e: Env, f: Env, k: nat)
    requires FullyReported(c, envs + [e] + [f]) && FullyReported(c, envs + [e]) && HasAll(c, e) && HasAll(c, f)
    requires 1 <= k <= LevelCount(c)
    ensures Variation(Track(c, envs + [e] + [f], k)) <= Variation(Track(c, envs + [e], k)) + Moves(c, e, f, |c.sensors|)
  {
    var shorter, longer := envs + [e], envs + [e] + [f];
    assert longer[..|longer| - 1] == shorter;
    VariationSnoc(Track(c, shorter, k), Furthest(c, f, k, |c.sensors|));
    FurthestMoves(c, e, f, k, |c.sensors|);
  }

  lemma {:induction false} TrackVariation(c: Config, envs: seq<Env>, k: nat)
    requires FullyReported(c, envs) && 1 <= k <= LevelCount(c)
    ensures Variation(Track(c, envs, k)) <= TotalVariation(c, envs, |c.sensors|)
  {
    if |envs| >= 2 {
      var n := |envs|;
      var e, f, before, front := envs[n - 2], envs[n - 1], envs[..n - 2], envs[..n - 1];
      assert HasAll(c, e) && HasAll(c, f);
      assert front == before + [e] && envs == before + [e] + [f];
      TrackVariation(c, front, k);
      TotalVariationStep(c, before, e, f);
      TrackStep(c, before, e, f, k);
    }
  }

  /** No chatter: over any run, every crossing of level k but the first has been paid for with at
      least the narrowest gap of that level in temperature movement, all sensors together. For one
      sensor this is the distance between its trigger and its clear. */
  lemma NoChatter(c: Config, envs: seq<Env>, level: nat, k: nat, gap: nat)
    requires FullyReported(c, envs) && level <= LevelCount(c) && 1 <= k <= LevelCount(c) && GapsAtLeast(c, k, gap)
    ensures (|Crossings(AtLeast(c, envs, level, k))| - 1) * gap <= TotalVariation(c, envs, |c.sensors|)
  {
    TrackIsLawful(c, envs, level, k, gap);
    LawfulBound(Track(c, envs, k), AtLeast(c, envs, level, k), gap, 0, gap);
    TrackVariation(c, envs, k);
  }
}
