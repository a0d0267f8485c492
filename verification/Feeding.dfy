/**
 What the policies hand to an action, told from the configured entries: a round is a run of the
 action in which every policy adds what it says, in policy order, and then the action executes.
 */
module Feeding {
  import opened Options
  import opened ClusterSpec
  import opened ThermalAction
  import opened ActionTheorems
  import opened DelayedValues
  import opened PolicySpec
  import opened Sorting

  // ----- what a policy says about an action -----

  /** Configuration c is the last one whose level the cluster has reached. */
  predicate IsChosen(configs: seq<PolicyConfig>, level: nat, c: nat) {
    && c < |configs| && configs[c].level <= level
    && forall d | c < d < |configs| :: configs[d].level > level
  }

  predicate Open(a: PolicyAction, held: Held) { a.isProp ==> forall k | k in a.props :: (k, a.props[k]) in held }

  /** Entry i is the last one for the action whose conditions hold. */
  predicate IsDecisive(actions: seq<PolicyAction>, held: Held, name: string, i: nat) {
    && i < |actions| && actions[i].name == name && Open(actions[i], held)
    && forall j | i < j < |actions| && actions[j].name == name :: !Open(actions[j], held)
  }

  /** Entry a is what the policy says about the action. */
  ghost predicate Says(p: ClusterPolicy, levels: map<string, nat>, held: Held, name: string, a: PolicyAction) {
    && p.cluster != "" && p.cluster in levels
    && exists c: nat, i: nat ::
         && IsChosen(p.configs, levels[p.cluster], c) && IsDecisive(p.configs[c].actions, held, name, i)
         && p.configs[c].actions[i] == a
  }

  /** The entry handed over is the one the policy says, and there is one exactly if it says one. */
  lemma HandedOverIsSaid(p: ClusterPolicy, levels: map<string, nat>, held: Held, name: string, a: PolicyAction)
    ensures Says(p, levels, held, name, a) <==>
              var actions := Contribution(p, levels);
              actions.Some? && name in Winners(actions.value, held) && Winners(actions.value, held)[name] == a
  {
    if Says(p, levels, held, name, a) {
      var c: nat, i: nat :| IsChosen(p.configs, levels[p.cluster], c) && IsDecisive(p.configs[c].actions, held, name, i)
                         && p.configs[c].actions[i] == a;
      OneChosen(p.configs, levels[p.cluster], c);
      DecisiveWins(p.configs[c].actions, held, name, i);
    }
    var actions := Contribution(p, levels);
    if actions.Some? && name in Winners(actions.value, held) {
      var c := ChosenAmong(p.configs, levels[p.cluster], |p.configs|).value;
      LastApplicableWins(actions.value, held, name);
      var i: nat :| LastApplying(actions.value, held, name, i)
                 && actions.value[i] == Winners(actions.value, held)[name];
      assert IsChosen(p.configs, levels[p.cluster], c) && IsDecisive(p.configs[c].actions, held, name, i);
    }
  }

  lemma OneChosen(configs: seq<PolicyConfig>, level: nat, c: nat)
    requires IsChosen(configs, level, c)
    ensures ChosenAmong(configs, level, |configs|) == Some(c)
  {}

  lemma DecisiveWins(actions: seq<PolicyAction>, held: Held, name: string, i: nat)
    requires IsDecisive(actions, held, name, i)
    ensures name in Winners(actions, held) && Winners(actions, held)[name] == actions[i]
  {
    WinnerExists(actions, held, name);
    LastApplicableWins(actions, held, name);
    var j: nat :| LastApplying(actions, held, name, j) && actions[j] == Winners(actions, held)[name];
    assert Open(actions[j], held);
  }

  /** No configuration of a higher level has been reached. */
  ghost predicate IsHighest(p: ClusterPolicy, level: nat, c: PolicyConfig) {
    c.level <= level && forall d | d in p.configs && d.level <= level :: d.level <= c.level
  }

  ghost predicate SaidIn(c: PolicyConfig, held: Held, name: string, a: PolicyAction) {
    exists i: nat :: IsDecisive(c.actions, held, name, i) && c.actions[i] == a
  }

  lemma ChosenIsTop(sorted: seq<PolicyConfig>, level: nat, c: nat)
    requires Ordered(sorted, LevelOf) && IsChosen(sorted, level, c)
    ensures forall d | d in sorted && d.level <= level :: d.level <= sorted[c].level
  {
    forall d | d in sorted && d.level <= level ensures d.level <= sorted[c].level {
      var j :| 0 <= j < |sorted| && sorted[j] == d;
      if j < c { assert LevelOf(sorted[j]) <= LevelOf(sorted[c]); }
    }
  }

  lemma TopIsChosen(sorted: seq<PolicyConfig>, level: nat, c: PolicyConfig)
    requires Ordered(sorted, LevelOf) && forall d, e | d in sorted && e in sorted && d.level == e.level :: d == e
    requires c in sorted && c.level <= level && forall d | d in sorted && d.level <= level :: d.level <= c.level
    ensures exists k: nat :: IsChosen(sorted, level, k) && sorted[k] == c
  {
    var r := ChosenAmong(sorted, level, |sorted|);
    var j :| 0 <= j < |sorted| && sorted[j] == c;
    assert r.Some?;
    var k := r.value;
    assert IsChosen(sorted, level, k);
    ChosenIsTop(sorted, level, k);
    assert sorted[k] in sorted;
  }

  ghost predicate SaidAmong(configs: seq<PolicyConfig>, level: nat, held: Held, name: string, a: PolicyAction) {
    exists c: nat :: IsChosen(configs, level, c) && SaidIn(configs[c], held, name, a)
  }

  lemma SaysIsSaidAmong(p: ClusterPolicy, levels: map<string, nat>, held: Held, name: string, a: PolicyAction)
    ensures Says(p, levels, held, name, a)
       <==> p.cluster != "" && p.cluster in levels && SaidAmong(p.configs, levels[p.cluster], held, name, a)
  {
    if Says(p, levels, held, name, a) {
      var c: nat, i: nat :| IsChosen(p.configs, levels[p.cluster], c) && IsDecisive(p.configs[c].actions, held, name, i)
                         && p.configs[c].actions[i] == a;
      assert SaidIn(p.configs[c], held, name, a);
    }
  }

  /** Of policies whose configurations have different levels, the order they are written in does not
      matter: once sorted, a policy says what the configuration of the highest level reached says. */
  lemma SortedPolicySays(p: ClusterPolicy, levels: map<string, nat>, held: Held, name: string, a: PolicyAction)
    requires forall c, d | c in p.configs && d in p.configs && c.level == d.level :: c == d
    ensures Says(SortPolicy(p), levels, held, name, a) <==>
              && p.cluster != "" && p.cluster in levels
              && exists c :: c in p.configs && IsHighest(p, levels[p.cluster], c) && SaidIn(c, held, name, a)
  {
    var sorted := SortPolicy(p).configs;
    SaysIsSaidAmong(SortPolicy(p), levels, held, name, a);
    SortSorts(p.configs, LevelOf);
    forall c ensures c in sorted <==> c in p.configs { SortMembers(p.configs, LevelOf, c); }
    if p.cluster in levels {
      var level := levels[p.cluster];
      if SaidAmong(sorted, level, held, name, a) {
        var c: nat :| IsChosen(sorted, level, c) && SaidIn(sorted[c], held, name, a);
        ChosenIsTop(sorted, level, c);
        assert IsHighest(p, level, sorted[c]);
      }
      forall c | c in p.configs && IsHighest(p, level, c) && SaidIn(c, held, name, a)
        ensures SaidAmong(sorted, level, held, name, a)
      {
        TopIsChosen(sorted, level, c);
      }
    }
  }

  // ----- feeding is a run of the action -----

  /** What handing over an entry means for the action. A `delaytime` that is not two fields makes the
      entry void. */
  function Handing(a: PolicyAction): seq<Event> {
    if !a.isProp || a.delay.NoDelay? then [AddValue(0, a.value)]
    else if a.delay.BadDelay? then []
    else [Propose(a.delay.id, Delayed(false, 0, a.delay.time, 0))] + [AddValue(a.delay.id, a.value)]
  }

  /** What a policy hands to the action. */
  ghost function HandedBy(p: ClusterPolicy, levels: map<string, nat>, held: Held, name: string): seq<Event> {
    if a :| Says(p, levels, held, name, a) then Handing(a) else []
  }

  /** ... and the first k policies, in policy order. */
  ghost function HandedByAll(ps: seq<ClusterPolicy>, levels: map<string, nat>, held: Held, name: string, k: nat)
    : seq<Event>
    requires k <= |ps|
  {
    if k == 0 then [] else HandedByAll(ps, levels, held, name, k - 1) + HandedBy(ps[k - 1], levels, held, name)
  }

  lemma HandingIsARun(s: State, a: PolicyAction)
    ensures ValidRun(s, Handing(a)) && After(s, Handing(a)) == FeedOne(s, a)
  {
    if !a.isProp || a.delay.NoDelay? {
      Extend(s, [], AddValue(0, a.value));
      assert [] + [AddValue(0, a.value)] == [AddValue(0, a.value)];
    } else if a.delay.DelayOf? {
      var propose := Propose(a.delay.id, Delayed(false, 0, a.delay.time, 0));
      Extend(s, [], propose);
      assert [] + [propose] == [propose];
      Extend(s, [propose], AddValue(a.delay.id, a.value));
    }
  }

  lemma PolicyIsARun(name: string, s: State, p: ClusterPolicy, levels: map<string, nat>, held: Held)
    ensures var es := HandedBy(p, levels, held, name);
            ValidRun(s, es) && After(s, es) == FeedFrom(name, s, p, levels, held)
  {
    var actions := Contribution(p, levels);
    if actions.Some? && name in Winners(actions.value, held) {
      var w := Winners(actions.value, held)[name];
      HandedOverIsSaid(p, levels, held, name, w);
      forall a | Says(p, levels, held, name, a) ensures a == w { HandedOverIsSaid(p, levels, held, name, a); }
      HandingIsARun(s, w);
    } else {
      forall a ensures !Says(p, levels, held, name, a) { HandedOverIsSaid(p, levels, held, name, a); }
    }
  }

  predicate IsDelayed(a: PolicyAction) { a.isProp && a.delay.DelayOf? }

  /** The value of an entry without a delay is added to those of the round; an entry without a value,
      or with a delay that is void, adds nothing. */
  lemma ImmediateEntryCounts(name: string, s: State, p: ClusterPolicy, levels: map<string, nat>, held: Held,
                             a: PolicyAction)
    requires Says(p, levels, held, name, a) && !IsDelayed(a)
    ensures FeedFrom(name, s, p, levels, held) == s.(values := s.values +
              if a.value.None? || (a.isProp && a.delay.BadDelay?) then [] else [a.value.value])
  {
    HandedOverIsSaid(p, levels, held, name, a);
    assert s.values + [] == s.values;
  }

  /** The value of a delayed entry waits under its id, which keeps its delay and its progress if it is
      known already, and is proposed for the round. */
  lemma DelayedEntryWaits(name: string, s: State, p: ClusterPolicy, levels: map<string, nat>, held: Held,
                          a: PolicyAction, id: nat)
    requires Says(p, levels, held, name, a) && IsDelayed(a) && a.delay.id == id > 0
    ensures var r := FeedFrom(name, s, p, levels, held);
            && r == s.(delayed := r.delayed, proposed := s.proposed + {id})
            && r.delayed.Keys == s.delayed.Keys + {id}
            && (forall j | j in s.delayed && j != id :: r.delayed[j] == s.delayed[j])
            && (a.value.Some? ==> r.delayed[id].value == a.value.value)
            && if id in s.delayed then r.delayed[id] == s.delayed[id].(value := r.delayed[id].value)
               else r.delayed[id] == Delayed(false, if a.value.Some? then a.value.value else 0, a.delay.time, 0)
  {
    HandedOverIsSaid(p, levels, held, name, a);
  }

  /** A policy that says nothing about the action leaves it as it is. */
  lemma SilentPolicyFeedsNothing(name: string, s: State, p: ClusterPolicy, levels: map<string, nat>, held: Held)
    requires forall a :: !Says(p, levels, held, name, a)
    ensures FeedFrom(name, s, p, levels, held) == s
  {
    var actions := Contribution(p, levels);
    if actions.Some? && name in Winners(actions.value, held) {
      HandedOverIsSaid(p, levels, held, name, Winners(actions.value, held)[name]);
    }
  }

  /** Feeding an action takes it through what the policies say, in policy order. */
  lemma {:induction false} FeedingIsARun(name: string, s: State, ps: seq<ClusterPolicy>, levels: map<string, nat>,
                                         held: Held, k: nat)
    requires k <= |ps|
    ensures var es := HandedByAll(ps, levels, held, name, k);
            ValidRun(s, es) && After(s, es) == FeedAll(name, s, ps, levels, held, k)
  {
    if k > 0 {
      FeedingIsARun(name, s, ps, levels, held, k - 1);
      var before := HandedByAll(ps, levels, held, name, k - 1);
      PolicyIsARun(name, After(s, before), ps[k - 1], levels, held);
      RunConcat(s, before, HandedBy(ps[k - 1], levels, held, name));
    }
  }

  /** A round of the engine is, for each action, a run: what the policies say at the new levels is
      handed over in policy order, and then the action executes. */
  lemma RoundIsARun(s: System, env: Env, ps: seq<ClusterPolicy>, name: string, s': System) returns (e: Event)
    requires Round(s, env, ps, name, s')
    ensures e.Execute?
    ensures var es := HandedByAll(ps, s'.engine.levels, env.held, name, |ps|) + [e];
            ValidRun(s.action, es) && s'.action == After(s.action, es)
  {
    var fed := HandedByAll(ps, s'.engine.levels, env.held, name, |ps|);
    FeedingIsARun(name, s.action, ps, s'.engine.levels, env.held, |ps|);
    e :| Enabled(After(s.action, fed), e) && e.Execute? && s'.action == Apply(After(s.action, fed), e);
    Extend(s.action, fed, e);
  }

  /** So, whatever has happened to the action before, the round ends with the smallest value it has if
      the action is strict and the greatest if it is not: among what the policies say now without a
      delay, what was added since the last execution, and the entries they still propose and whose
      timers have fired. */
  lemma RoundDecidesExactly(strict: bool, fallback: nat, reset: nat, es: seq<Event>, s: System, env: Env,
                            ps: seq<ClusterPolicy>, name: string, s': System)
    returns (run: seq<Event>)
    requires ValidRun(Initial(strict, fallback, reset), es) && s.action == After(Initial(strict, fallback, reset), es)
    requires Round(s, env, ps, name, s')
    ensures run != [] && run[|run| - 1].Execute?
    ensures run[..|run| - 1] == es + HandedByAll(ps, s'.engine.levels, env.held, name, |ps|)
    ensures ValidRun(Initial(strict, fallback, reset), run) && s'.action == After(Initial(strict, fallback, reset), run)
    ensures if exists v: nat :: Counts(run, v)
            then Counts(run, s'.action.last) &&
                 forall v: nat | Counts(run, v) :: if strict then s'.action.last <= v else v <= s'.action.last
            else s'.action.last == fallback
  {
    var e := RoundIsARun(s, env, ps, name, s');
    var fed := HandedByAll(ps, s'.engine.levels, env.held, name, |ps|);
    RunConcat(Initial(strict, fallback, reset), es, fed + [e]);
    run := es + (fed + [e]);
    ExecutionArbitratesExactly(strict, fallback, reset, run);
  }
}
