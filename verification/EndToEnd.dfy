/**
 From reports to the limit of a strict action: over whole runs, hotter reports never loosen it.
 */
module EndToEnd {
  import opened ClusterSpec
  import opened ClusterTheorems
  import opened ThermalAction
  import opened PolicySpec
  import opened Options

  // ----- policies that only ever tighten -----

  ghost predicate Names(actions: seq<PolicyAction>, name: string) {
    exists i :: 0 <= i < |actions| && actions[i].name == name
  }

  predicate Unconditional(a: PolicyAction) { a.isProp ==> a.props == map[] && a.delay.NoDelay? }

  /** Whatever the state conditions, the list gives the action a value no larger than `bound`. */
  ghost predicate Limits(actions: seq<PolicyAction>, name: string, bound: nat) {
    && Names(actions, name)
    && forall i | 0 <= i < |actions| && actions[i].name == name ::
         Unconditional(actions[i]) && actions[i].value.Some? && actions[i].value.value <= bound
  }

  /** The value of the last entry for the action; 0 if there is none. */
  function LastValue(actions: seq<PolicyAction>, name: string): nat {
    if actions == [] then 0
    else
      var a := actions[|actions| - 1];
      if a.name == name && a.value.Some? then a.value.value else LastValue(actions[..|actions| - 1], name)
  }

  /** The policy leaves the action alone, or names it in every configuration with values that do
      not grow from one configuration to the next. */
  ghost predicate Tightening(p: ClusterPolicy, name: string, bound: nat) {
    || (forall i | 0 <= i < |p.configs| :: !Names(p.configs[i].actions, name))
    || ((forall i | 0 <= i < |p.configs| :: Limits(p.configs[i].actions, name, bound)) &&
        forall i, j | 0 <= i <= j < |p.configs| ::
          LastValue(p.configs[j].actions, name) <= LastValue(p.configs[i].actions, name))
  }

  lemma {:induction false} LimitWins(actions: seq<PolicyAction>, name: string, bound: nat, held: Held)
    requires Limits(actions, name, bound)
    ensures name in Winners(actions, held)
    ensures Unconditional(Winners(actions, held)[name])
    ensures Winners(actions, held)[name].value == Some(LastValue(actions, name)) && LastValue(actions, name) <= bound
  {
    var front, last := actions[..|actions| - 1], actions[|actions| - 1];
    if last.name != name {
      var i :| 0 <= i < |actions| && actions[i].name == name;
      assert front[i].name == name;
      LimitWins(front, name, bound, held);
    }
  }

  /** The values a policy feeds the action: none, or one. */
  ghost function Contributed(p: ClusterPolicy, name: string, levels: map<string, nat>): seq<nat> {
    var actions := Contribution(p, levels);
    if actions.Some? && Names(actions.value, name) then [LastValue(actions.value, name)] else []
  }

  ghost function ContributedByAll(ps: seq<ClusterPolicy>, name: string, levels: map<string, nat>, k: nat): seq<nat>
    requires k <= |ps|
  {
    if k == 0 then [] else ContributedByAll(ps, name, levels, k - 1) + Contributed(ps[k - 1], name, levels)
  }

  lemma FeedFromValues(name: string, s: State, p: ClusterPolicy, levels: map<string, nat>, held: Held, bound: nat)
    requires Tightening(p, name, bound)
    ensures FeedFrom(name, s, p, levels, held) == s.(values := s.values + Contributed(p, name, levels))
  {
    var actions := Contribution(p, levels);
    if actions.None? {
      assert s.values + [] == s.values;
    } else {
      WinnerExists(actions.value, held, name);
      if Names(actions.value, name) {
        LimitWins(actions.value, name, bound, held);
      } else {
        assert s.values + [] == s.values;
      }
    }
  }

  lemma {:induction false} FeedAllValues(name: string, s: State, ps: seq<ClusterPolicy>, levels: map<string, nat>,
                                         held: Held, k: nat, bound: nat)
    requires k <= |ps| && forall p | p in ps :: Tightening(p, name, bound)
    ensures FeedAll(name, s, ps, levels, held, k) == s.(values := s.values + ContributedByAll(ps, name, levels, k))
  {
    if k == 0 {
      assert s.values + [] == s.values;
    } else {
      FeedAllValues(name, s, ps, levels, held, k - 1, bound);
      var rest, new_ := ContributedByAll(ps, name, levels, k - 1), Contributed(ps[k - 1], name, levels);
      FeedFromValues(name, s.(values := s.values + rest), ps[k - 1], levels, held, bound);
      assert s.values + rest + new_ == s.values + (rest + new_);
    }
  }

  // ----- higher levels feed smaller values -----

  ghost predicate LevelsBelow(lo: map<string, nat>, hi: map<string, nat>) {
    lo.Keys == hi.Keys && forall n | n in lo :: lo[n] <= hi[n]
  }

  /** Every value of one list is matched by one that is no larger. */
  ghost predicate Undercuts(low: seq<nat>, high: seq<nat>) {
    forall v | v in high :: exists w :: w in low && w <= v
  }

  lemma {:induction false} ChosenMonotone(configs: seq<PolicyConfig>, lo: nat, hi: nat, k: nat)
    requires k <= |configs| && lo <= hi && ChosenAmong(configs, lo, k).Some?
    ensures ChosenAmong(configs, hi, k).Some?
    ensures ChosenAmong(configs, lo, k).value <= ChosenAmong(configs, hi, k).value
  {}

  lemma ContributedUndercuts(p: ClusterPolicy, name: string, lo: map<string, nat>, hi: map<string, nat>, bound: nat)
    requires Tightening(p, name, bound) && LevelsBelow(lo, hi)
    ensures Undercuts(Contributed(p, name, hi), Contributed(p, name, lo))
    ensures forall w | w in Contributed(p, name, hi) :: w <= bound
  {
    if Contributed(p, name, hi) != [] { ContributedIs(p, name, hi, bound); }
    if Contributed(p, name, lo) != [] {
      ContributedIs(p, name, lo, bound);
      ChosenMonotone(p.configs, lo[p.cluster], hi[p.cluster], |p.configs|);
      ContributedIs(p, name, hi, bound);
      assert Contributed(p, name, hi)[0] in Contributed(p, name, hi);
    }
  }

  /** Once the policy names the action, it does so in the chosen configuration. */
  lemma ContributedIs(p: ClusterPolicy, name: string, levels: map<string, nat>, bound: nat)
    requires Tightening(p, name, bound) && exists i :: 0 <= i < |p.configs| && Names(p.configs[i].actions, name)
    requires Contribution(p, levels).Some?
    ensures var c := ChosenAmong(p.configs, levels[p.cluster], |p.configs|);
            Contributed(p, name, levels) == [LastValue(p.configs[c.value].actions, name)]
    ensures Contributed(p, name, levels)[0] <= bound
  {
    var c := ChosenAmong(p.configs, levels[p.cluster], |p.configs|).value;
    assert Limits(p.configs[c].actions, name, bound);
    LimitWins(p.configs[c].actions, name, bound, {});
  }

  lemma UndercutsConcat(low: seq<nat>, high: seq<nat>, low': seq<nat>, high': seq<nat>)
    requires Undercuts(low, high) && Undercuts(low', high')
    ensures Undercuts(low + low', high + high')
  {
    forall v | v in high + high' ensures exists w :: w in low + low' && w <= v {
      if v in high {
        var w :| w in low && w <= v;
        assert w in low + low';
      } else {
        var w :| w in low' && w <= v;
        assert w in low + low';
      }
    }
  }

  /** What one more policy adds keeps the lists in step. */
  lemma OneMoreUndercuts(ps: seq<ClusterPolicy>, name: string, lo: map<string, nat>, hi: map<string, nat>, k: nat)
    requires 0 < k <= |ps|
    requires Undercuts(ContributedByAll(ps, name, hi, k - 1), ContributedByAll(ps, name, lo, k - 1))
    requires Undercuts(Contributed(ps[k - 1], name, hi), Contributed(ps[k - 1], name, lo))
    ensures Undercuts(ContributedByAll(ps, name, hi, k), ContributedByAll(ps, name, lo, k))
  {
    UndercutsConcat(ContributedByAll(ps, name, hi, k - 1), ContributedByAll(ps, name, lo, k - 1),
                    Contributed(ps[k - 1], name, hi), Contributed(ps[k - 1], name, lo));
  }

  lemma {:induction false} ContributionsUndercut(ps: seq<ClusterPolicy>, name: string, lo: map<string, nat>,
                                                 hi: map<string, nat>, k: nat, bound: nat)
    requires k <= |ps| && LevelsBelow(lo, hi) && forall p | p in ps :: Tightening(p, name, bound)
    ensures Undercuts(ContributedByAll(ps, name, hi, k), ContributedByAll(ps, name, lo, k))
  {
    if k > 0 {
      ContributionsUndercut(ps, name, lo, hi, k - 1, bound);
      ContributedUndercuts(ps[k - 1], name, lo, hi, bound);
      OneMoreUndercuts(ps, name, lo, hi, k);
    }
  }

  lemma {:induction false} ContributionsBounded(ps: seq<ClusterPolicy>, name: string, levels: map<string, nat>, k: nat,
                                                bound: nat)
    requires k <= |ps| && forall p | p in ps :: Tightening(p, name, bound)
    ensures forall w | w in ContributedByAll(ps, name, levels, k) :: w <= bound
  {
    if k > 0 {
      ContributionsBounded(ps, name, levels, k - 1, bound);
      ContributedUndercuts(ps[k - 1], name, levels, levels, bound);
    }
  }

  // ----- smaller values give a tighter limit -----

  /** The same action apart from its timers and what it sent last. */
  ghost predicate Alike(s: State, t: State) {
    && s.strict == t.strict && s.fallback == t.fallback && s.reset == t.reset
    && s.values == t.values && s.proposed == t.proposed
    && s.delayed.Keys == t.delayed.Keys
    && forall id | id in s.delayed ::
         s.delayed[id].completed == t.delayed[id].completed && s.delayed[id].value == t.delayed[id].value
  }

  lemma AlikeFedBy(s: State, t: State)
    requires Alike(s.(values := t.values), t)
    ensures FedBy(s, s.delayed.Keys) == FedBy(t, t.delayed.Keys)
  {}

  /** Two strict actions that differ in the values added to them. */
  lemma ValueUndercuts(cool: State, hot: State, base: seq<nat>, low: seq<nat>, high: seq<nat>)
    requires Alike(cool.(values := base), hot.(values := base)) && cool.strict
    requires cool.values == base + high && hot.values == base + low
    requires Undercuts(low, high) && forall w | w in low :: w <= hot.fallback
    ensures Value(hot) <= Value(cool)
  {
    AlikeFedBy(cool.(values := base), hot.(values := base));
    assert FedBy(cool, cool.delayed.Keys) == FedBy(cool.(values := base), cool.delayed.Keys);
    assert FedBy(hot, hot.delayed.Keys) == FedBy(hot.(values := base), hot.delayed.Keys);
    assert forall x | x in base :: x in Fed(cool);
    if Fed(cool) == {} {
      if Fed(hot) != {} { assert Value(hot) in low; }
    } else {
      var v := Value(cool);
      if v in high {
        var w :| w in low && w <= v;
        assert w in Fed(hot);
      } else {
        assert v in Fed(hot);
      }
    }
  }

  lemma PreparedAlike(s: State, t: State, e: Event, f: Event)
    requires Alike(s.(values := t.values), t)
    requires e.Execute? && f.Execute? && Enabled(s, e) && Enabled(t, f)
    ensures Alike(Prepared(s, e.created, e.nextTimer).(values := t.values), Prepared(t, f.created, f.nextTimer))
    ensures Prepared(s, e.created, e.nextTimer).values == s.values
    ensures Prepared(s, e.created, e.nextTimer).strict == s.strict
  {}

  // ----- levels only rise with the reports -----

  /** The same clusters, at levels no higher. */
  ghost predicate EngineBelow(lo: Engine, hi: Engine) {
    && |lo.clusters| == |hi.clusters|
    && LevelsBelow(lo.levels, hi.levels)
    && forall i | 0 <= i < |lo.clusters| ::
         && lo.clusters[i].name == hi.clusters[i].name && lo.clusters[i].config == hi.clusters[i].config
         && lo.clusters[i].level <= hi.clusters[i].level
  }

  /** Ungated clusters with sorted tables. */
  ghost predicate Simple(e: Engine) {
    forall i | 0 <= i < |e.clusters| ::
      ClusterOk(e.clusters[i]) && Sorted(e.clusters[i].config) && Ungated(e.clusters[i].config)
  }

  ghost predicate HotterForAll(e: Engine, cool: Env, hot: Env) {
    forall i | 0 <= i < |e.clusters| :: Hotter(e.clusters[i].config, cool, hot)
  }

  ghost predicate SameConfigs(d: Engine, e: Engine) {
    && |d.clusters| == |e.clusters|
    && forall i | 0 <= i < |e.clusters| :: d.clusters[i].config == e.clusters[i].config
  }

  /** Simple clusters with the tables of e, the first at levels no higher than the second. */
  ghost predicate InOrder(e: Engine, lo: Engine, hi: Engine) {
    EngineBelow(lo, hi) && SameConfigs(lo, e) && Simple(lo) && Simple(hi)
  }

  lemma UpdatedBelow(e: Engine, lo: Engine, hi: Engine, cool: Env, hot: Env, k: nat)
    requires InOrder(e, lo, hi) && HotterForAll(e, cool, hot) && k < |e.clusters|
    ensures InOrder(e, Updated(lo, cool, k), Updated(hi, hot, k))
  {
    var l, h := lo.clusters[k], hi.clusters[k];
    assert ClusterOk(l) && ClusterOk(h);
    assert Hotter(l.config, cool, hot);
    ClusterStepMonotone(l.config, cool, hot, l.level, h.level);
  }

  lemma {:induction false} DecidedBelow(e: Engine, lo: Engine, hi: Engine, cool: Env, hot: Env, k: nat)
    requires InOrder(e, lo, hi) && HotterForAll(e, cool, hot) && k <= |e.clusters|
    ensures InOrder(e, Decided(lo, cool, k), Decided(hi, hot, k))
  {
    if k > 0 {
      DecidedBelow(e, lo, hi, cool, hot, k - 1);
      UpdatedBelow(e, Decided(lo, cool, k - 1), Decided(hi, hot, k - 1), cool, hot, k - 1);
    }
  }

  // ----- whole runs -----

  /** A report arrives and the engine takes its round; the timer of an entry fires; or the device
      restarts and the action forgets what it sent. */
  datatype Happening = Reported(env: Env) | TimerFires(id: nat) | DeviceRestarts

  ghost predicate Happens(s: System, h: Happening, ps: seq<ClusterPolicy>, name: string, s': System) {
    match h
    case Reported(env) => Round(s, env, ps, name, s')
    case TimerFires(id) => s'.engine == s.engine && FiresTo(s.action, id, s'.action)
    case DeviceRestarts => s'.engine == s.engine && s'.action == Apply(s.action, Reset)
  }

  ghost predicate FiresTo(s: State, id: nat, s': State) {
    exists t :: Enabled(s, Fire(t, id)) && s' == Apply(s, Fire(t, id))
  }

  ghost predicate Run(run: seq<System>, hs: seq<Happening>, ps: seq<ClusterPolicy>, name: string) {
    && |run| == |hs| + 1
    && forall i | 0 <= i < |hs| :: Happens(run[i], hs[i], ps, name, run[i + 1])
  }

  /** The same thing happens, and if it is a report it is at least as hot. */
  ghost predicate NoCooler(e: Engine, cool: Happening, hot: Happening) {
    if cool.Reported? then hot.Reported? && HotterForAll(e, cool.env, hot.env) else hot == cool
  }

  ghost predicate Tighter(cool: System, hot: System) {
    && InOrder(cool.engine, cool.engine, hot.engine)
    && Alike(cool.action, hot.action) && cool.action.strict
    && hot.action.last <= cool.action.last
  }

  lemma RoundTightens(cool: System, hot: System, coolEnv: Env, hotEnv: Env, ps: seq<ClusterPolicy>, name: string,
                      cool': System, hot': System)
    requires Tighter(cool, hot) && HotterForAll(cool.engine, coolEnv, hotEnv)
    requires forall p | p in ps :: Tightening(p, name, cool.action.fallback)
    requires Round(cool, coolEnv, ps, name, cool') && Round(hot, hotEnv, ps, name, hot')
    ensures Tighter(cool', hot')
    ensures cool'.action.fallback == cool.action.fallback
    ensures SameConfigs(cool'.engine, cool.engine)
  {
    var n, bound := |ps|, cool.action.fallback;
    DecidedBelow(cool.engine, cool.engine, hot.engine, coolEnv, hotEnv, |cool.engine.clusters|);
    FeedAllValues(name, cool.action, ps, cool'.engine.levels, coolEnv.held, n, bound);
    FeedAllValues(name, hot.action, ps, hot'.engine.levels, hotEnv.held, n, bound);
    ContributionsUndercut(ps, name, cool'.engine.levels, hot'.engine.levels, n, bound);
    ContributionsBounded(ps, name, hot'.engine.levels, n, bound);
    ExecutionTightens(cool.action, hot.action, ContributedByAll(ps, name, hot'.engine.levels, n),
                      ContributedByAll(ps, name, cool'.engine.levels, n), cool'.action, hot'.action);
  }

  lemma ExecutionTightens(cool: State, hot: State, low: seq<nat>, high: seq<nat>, cool': State, hot': State)
    requires Alike(cool, hot) && cool.strict
    requires Undercuts(low, high) && forall w | w in low :: w <= hot.fallback
    requires ExecutesTo(cool.(values := cool.values + high), cool')
    requires ExecutesTo(hot.(values := hot.values + low), hot')
    ensures Alike(cool', hot') && cool'.strict && cool'.fallback == cool.fallback && hot'.last <= cool'.last
  {
    var c, h := cool.(values := cool.values + high), hot.(values := hot.values + low);
    var e :| Enabled(c, e) && e.Execute? && cool' == Apply(c, e);
    var f :| Enabled(h, f) && f.Execute? && hot' == Apply(h, f);
    var pc, ph := Prepared(c, e.created, e.nextTimer), Prepared(h, f.created, f.nextTimer);
    PreparedAlike(c, h, e, f);
    assert Alike(pc.(values := cool.values), ph.(values := cool.values));
    ValueUndercuts(pc, ph, cool.values, low, high);
  }

  lemma FiringTightens(cool: State, hot: State, id: nat, cool': State, hot': State)
    requires Alike(cool, hot) && FiresTo(cool, id, cool') && FiresTo(hot, id, hot')
    ensures Alike(cool', hot') && cool'.strict == cool.strict && cool'.fallback == cool.fallback
    ensures hot'.last == cool'.last
  {
    var c, h := Completed(cool, id), Completed(hot, id);
    AlikeFedBy(c, h);
    assert Value(c) == Value(h);
  }

  lemma HappeningTightens(cool: System, hot: System, c: Happening, h: Happening, ps: seq<ClusterPolicy>, name: string,
                          cool': System, hot': System)
    requires Tighter(cool, hot) && NoCooler(cool.engine, c, h)
    requires forall p | p in ps :: Tightening(p, name, cool.action.fallback)
    requires Happens(cool, c, ps, name, cool') && Happens(hot, h, ps, name, hot')
    ensures Tighter(cool', hot') && cool'.action.fallback == cool.action.fallback
    ensures SameConfigs(cool'.engine, cool.engine)
  {
    match c
    case Reported(env) => RoundTightens(cool, hot, env, h.env, ps, name, cool', hot');
    case TimerFires(id) => FiringTightens(cool.action, hot.action, id, cool'.action, hot'.action);
    case DeviceRestarts =>
  }

  /** Two runs from the same start in which the same timers fire and the device restarts at the same
      moments, the second with reports that are pointwise at least as hot: at every moment the
      second has the limit at most where the first has it. */
  lemma {:induction false} HotterNeverLoosens(coolRun: seq<System>, hotRun: seq<System>, cool: seq<Happening>,
                                              hot: seq<Happening>, ps: seq<ClusterPolicy>, name: string)
    requires |cool| == |hot| && Run(coolRun, cool, ps, name) && Run(hotRun, hot, ps, name)
    requires coolRun[0] == hotRun[0] && Simple(coolRun[0].engine) && coolRun[0].action.strict
    requires forall i | 0 <= i < |cool| :: NoCooler(coolRun[0].engine, cool[i], hot[i])
    requires forall p | p in ps :: Tightening(p, name, coolRun[0].action.fallback)
    ensures hotRun[|hot|].action.last <= coolRun[|cool|].action.last
    ensures Tighter(coolRun[|cool|], hotRun[|hot|])
    ensures coolRun[|cool|].action.fallback == coolRun[0].action.fallback
    ensures SameConfigs(coolRun[|cool|].engine, coolRun[0].engine)
  {
    if cool != [] {
      var n := |cool| - 1;
      HotterNeverLoosens(coolRun[..n + 1], hotRun[..n + 1], cool[..n], hot[..n], ps, name);
      SameMeasure(coolRun[0].engine, coolRun[n].engine, cool[n], hot[n]);
      HappeningTightens(coolRun[n], hotRun[n], cool[n], hot[n], ps, name, coolRun[n + 1], hotRun[n + 1]);
    }
  }

  lemma SameMeasure(d: Engine, e: Engine, cool: Happening, hot: Happening)
    requires NoCooler(d, cool, hot) && SameConfigs(e, d)
    ensures NoCooler(e, cool, hot)
  {
    if cool.Reported? {
      forall i | 0 <= i < |e.clusters| ensures Hotter(e.clusters[i].config, cool.env, hot.env) {
        assert Hotter(d.clusters[i].config, cool.env, hot.env);
      }
    }
  }
}
