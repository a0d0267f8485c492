/**
 From cluster levels to action values: every cluster policy contributes the configuration of the
 highest level its cluster has reached, and in it the last matching entry for each action.
 */
module PolicySpec {
  import opened Sorting
  import opened ClusterSpec
  import opened ThermalAction
  import opened Options

  /** The parsed `delaytime` property of an entry: absent, not two fields, or id and time. */
  datatype Delay = NoDelay | BadDelay | DelayOf(id: nat, time: nat)

  datatype PolicyAction = PolicyAction(
    name: string,
    value: Option<nat>,           // None is the empty string
    isProp: bool,
    props: map<string, string>,   // the state conditions, without `delaytime`
    delay: Delay)

  datatype PolicyConfig = PolicyConfig(level: nat, actions: seq<PolicyAction>)

  datatype ClusterPolicy = ClusterPolicy(cluster: string, configs: seq<PolicyConfig>)

  type Held = set<(string, string)>

  function LevelOf(p: PolicyConfig): int { p.level }

  function SortPolicy(p: ClusterPolicy): ClusterPolicy { p.(configs := Sort(p.configs, LevelOf)) }

  // ----- choosing a configuration -----

  /** The last of the first k configurations whose level the cluster has reached. */
  function ChosenAmong(configs: seq<PolicyConfig>, level: nat, k: nat): (r: Option<nat>)
    requires k <= |configs|
    ensures r.Some? ==> r.value < k && configs[r.value].level <= level
    ensures r.Some? ==> forall i | r.value < i < k :: configs[i].level > level
    ensures r.None? ==> forall i | 0 <= i < k :: configs[i].level > level
  {
    if k == 0 then None
    else if level >= configs[k - 1].level then Some(k - 1)
    else ChosenAmong(configs, level, k - 1)
  }

  /** The actions a cluster policy contributes, if any. */
  function Contribution(p: ClusterPolicy, levels: map<string, nat>): Option<seq<PolicyAction>> {
    if p.cluster == "" || p.configs == [] || p.cluster !in levels then None
    else
      var chosen := ChosenAmong(p.configs, levels[p.cluster], |p.configs|);
      if chosen.None? then None else Some(p.configs[chosen.value].actions)
  }

  // ----- choosing an entry -----

  predicate Applies(a: PolicyAction, held: Held) { a.isProp ==> StateHolds(a.props, held) }

  /** For each action the last entry whose conditions hold. */
  function Winners(actions: seq<PolicyAction>, held: Held): (w: map<string, PolicyAction>)
    ensures forall n | n in w :: w[n] in actions && w[n].name == n && Applies(w[n], held)
  {
    if actions == [] then map[] else
      var rest, a := Winners(actions[..|actions| - 1], held), actions[|actions| - 1];
      if Applies(a, held) then rest[a.name := a] else rest
  }

  // ----- feeding the actions -----

  /** What handing one entry to its action does. A new delayed value is not completed and has no
      timer yet. */
  function FeedOne(s: State, a: PolicyAction): State {
    if a.isProp && a.delay.DelayOf? then
      WithValue(Proposed(s, a.delay.id, Delayed(false, 0, a.delay.time, 0)), a.delay.id, a.value)
    else if a.isProp && a.delay.BadDelay? then s
    else WithValue(s, 0, a.value)
  }

  function FeedFrom(name: string, s: State, p: ClusterPolicy, levels: map<string, nat>, held: Held): State {
    var actions := Contribution(p, levels);
    if actions.None? then s else
      var w := Winners(actions.value, held);
      if name in w then FeedOne(s, w[name]) else s
  }

  /** The state of action `name` after the first k cluster policies have been decided. */
  function FeedAll(name: string, s: State, ps: seq<ClusterPolicy>, levels: map<string, nat>, held: Held, k: nat): State
    requires k <= |ps|
  {
    if k == 0 then s else FeedFrom(name, FeedAll(name, s, ps, levels, held, k - 1), ps[k - 1], levels, held)
  }

  // the same for all actions at once

  function FedAll(states: map<string, State>, ps: seq<ClusterPolicy>, levels: map<string, nat>, held: Held, k: nat)
    : map<string, State>
    requires k <= |ps|
  {
    if k == 0 then states else FedFrom(FedAll(states, ps, levels, held, k - 1), ps[k - 1], levels, held)
  }

  lemma {:induction false} FedAllEach(states: map<string, State>, ps: seq<ClusterPolicy>, levels: map<string, nat>,
                                      held: Held, k: nat)
    requires k <= |ps|
    ensures var r := FedAll(states, ps, levels, held, k);
            r.Keys == states.Keys && forall n | n in states :: r[n] == FeedAll(n, states[n], ps, levels, held, k)
  {
    if k > 0 { FedAllEach(states, ps, levels, held, k - 1); }
  }

  function FedFrom(states: map<string, State>, p: ClusterPolicy, levels: map<string, nat>, held: Held)
    : map<string, State>
  {
    map n | n in states :: FeedFrom(n, states[n], p, levels, held)
  }

  /** The actions after the entries of `done` have been handed over. */
  function FedWinners(states: map<string, State>, w: map<string, PolicyAction>, done: set<string>): map<string, State> {
    map n | n in states :: if n in w && n in done then FeedOne(states[n], w[n]) else states[n]
  }

  function FedOne(states: map<string, State>, name: string, a: PolicyAction): map<string, State> {
    if name in states then states[name := FeedOne(states[name], a)] else states
  }

  lemma FedFromContribution(states: map<string, State>, p: ClusterPolicy, levels: map<string, nat>, held: Held)
    ensures var actions := Contribution(p, levels);
            FedFrom(states, p, levels, held) ==
              if actions.None? then states
              else FedWinners(states, Winners(actions.value, held), Winners(actions.value, held).Keys)
  {}

  lemma FedWinnersOne(states: map<string, State>, w: map<string, PolicyAction>, done: set<string>, name: string)
    requires name in w && name !in done
    ensures FedWinners(states, w, done + {name}) == FedOne(FedWinners(states, w, done), name, w[name])
  {}

  /** `s'` is what some execution in state s leads to. */
  ghost predicate ExecutesTo(s: State, s': State) {
    exists e :: Enabled(s, e) && e.Execute? && s' == Apply(s, e)
  }

  // ----- level decision -----

  datatype NamedCluster = NamedCluster(name: string, config: Config, level: nat)

  ghost predicate ClusterOk(c: NamedCluster) { Standard(c.config) && c.level <= LevelCount(c.config) }

  ghost function NewLevel(c: NamedCluster, env: Env): nat {
    if ClusterOk(c) then ClusterStep(c.config, env, c.level) else c.level
  }

  /** The clusters of the engine with the level map it keeps of them. */
  datatype Engine = Engine(clusters: seq<NamedCluster>, levels: map<string, nat>)

  ghost function Updated(e: Engine, env: Env, k: nat): Engine
    requires k < |e.clusters|
  {
    var c := e.clusters[k];
    Engine(e.clusters[k := c.(level := NewLevel(c, env))], e.levels[c.name := NewLevel(c, env)])
  }

  /** The engine after the first k of its clusters have taken their step. */
  ghost function Decided(e: Engine, env: Env, k: nat): (r: Engine)
    requires k <= |e.clusters|
    ensures |r.clusters| == |e.clusters|
  {
    if k == 0 then e else Updated(Decided(e, env, k - 1), env, k - 1)
  }

  ghost predicate Sound(e: Engine) { forall i | 0 <= i < |e.clusters| :: ClusterOk(e.clusters[i]) }

  lemma {:induction false} DecidedSound(e: Engine, env: Env, k: nat)
    requires Sound(e) && k <= |e.clusters|
    ensures Sound(Decided(e, env, k))
  {
    if k > 0 { DecidedSound(e, env, k - 1); }
  }

  ghost predicate DistinctNames(e: Engine) {
    forall i, j | 0 <= i < j < |e.clusters| :: e.clusters[i].name != e.clusters[j].name
  }

  /** Cluster i and its entry in the level map are where the reports have taken the cluster. */
  ghost predicate ClusterIs(e: Engine, i: nat, name: string, config: Config, level: nat) {
    && i < |e.clusters| && e.clusters[i] == NamedCluster(name, config, level)
    && name in e.levels && e.levels[name] == level
  }

  lemma {:induction false} NotYetDecided(e: Engine, env: Env, k: nat, i: nat)
    requires k <= i < |e.clusters|
    ensures Decided(e, env, k).clusters[i] == e.clusters[i]
  {
    if k > 0 { NotYetDecided(e, env, k - 1, i); }
  }

  /** Of the clusters that have taken their step, each is at its new level, and so is its entry. */
  lemma {:induction false} DecidedExactly(e: Engine, env: Env, k: nat, i: nat)
    requires Sound(e) && DistinctNames(e) && i < k <= |e.clusters|
    ensures var c := e.clusters[i];
            ClusterIs(Decided(e, env, k), i, c.name, c.config, ClusterStep(c.config, env, c.level))
  {
    assert ClusterOk(e.clusters[k - 1]);
    NotYetDecided(e, env, k - 1, k - 1);
    UpdatedExactly(Decided(e, env, k - 1), env, k - 1, i);
    if i < k - 1 {
      assert e.clusters[i].name != e.clusters[k - 1].name;
      DecidedExactly(e, env, k - 1, i);
    }
  }

  lemma UpdatedExactly(e: Engine, env: Env, k: nat, i: nat)
    requires k < |e.clusters| && ClusterOk(e.clusters[k]) && i < |e.clusters|
    ensures var c, r := e.clusters[k], Updated(e, env, k);
            && ClusterIs(r, k, c.name, c.config, ClusterStep(c.config, env, c.level))
            && (i != k ==> r.clusters[i] == e.clusters[i])
            && forall n | n in e.levels && n != c.name :: n in r.levels && r.levels[n] == e.levels[n]
  {}

  /** The engine after a run of reports. */
  ghost function DecidedAll(e: Engine, envs: seq<Env>): (r: Engine)
    ensures |r.clusters| == |e.clusters|
  {
    if envs == [] then e else Decided(DecidedAll(e, envs[..|envs| - 1]), envs[|envs| - 1], |e.clusters|)
  }

  /** Over any run of reports, every cluster is where it would be on its own, and the level map the
      policies look at agrees. */
  lemma {:induction false} LevelMapFollowsClusters(e: Engine, envs: seq<Env>, i: nat)
    requires Sound(e) && DistinctNames(e) && i < |e.clusters|
    ensures var c, r := e.clusters[i], DecidedAll(e, envs);
            && Sound(r) && DistinctNames(r)
            && r.clusters[i] == c.(level := ClusterRun(c.config, envs, c.level))
            && (envs != [] ==> ClusterIs(r, i, c.name, c.config, ClusterRun(c.config, envs, c.level)))
  {
    assert ClusterOk(e.clusters[i]);
    if envs != [] {
      var front, env := DecidedAll(e, envs[..|envs| - 1]), envs[|envs| - 1];
      LevelMapFollowsClusters(e, envs[..|envs| - 1], i);
      DecidedSound(front, env, |e.clusters|);
      DecidedNames(front, env, |e.clusters|);
      DecidedExactly(front, env, |e.clusters|, i);
    }
  }

  lemma {:induction false} DecidedNames(e: Engine, env: Env, k: nat)
    requires k <= |e.clusters|
    ensures forall i | 0 <= i < |e.clusters| :: Decided(e, env, k).clusters[i].name == e.clusters[i].name
  {
    if k > 0 { DecidedNames(e, env, k - 1); }
  }

  // ----- a round -----

  /** The engine and one of its actions. */
  datatype System = System(engine: Engine, action: State)

  /** One round: levels are decided, every policy feeds the action, and the action executes. */
  ghost predicate Round(s: System, env: Env, ps: seq<ClusterPolicy>, name: string, s': System) {
    && s'.engine == Decided(s.engine, env, |s.engine.clusters|)
    && ExecutesTo(FeedAll(name, s.action, ps, s'.engine.levels, env.held, |ps|), s'.action)
  }

  lemma {:induction false} FeedingKeepsTimers(name: string, s: State, ps: seq<ClusterPolicy>, levels: map<string, nat>,
                                              held: Held, k: nat)
    requires k <= |ps|
    ensures FeedAll(name, s, ps, levels, held, k).nextTimer == s.nextTimer
    ensures FeedAll(name, s, ps, levels, held, k).live == s.live
  {
    if k > 0 { FeedingKeepsTimers(name, s, ps, levels, held, k - 1); }
  }

  lemma FedIsReady(states: map<string, State>, ps: seq<ClusterPolicy>, levels: map<string, nat>, held: Held)
    requires forall n | n in states :: states[n].nextTimer > 0
    ensures var fed := FedAll(states, ps, levels, held, |ps|);
            && fed.Keys == states.Keys
            && forall n | n in states ::
                 fed[n] == FeedAll(n, states[n], ps, levels, held, |ps|) && fed[n].nextTimer > 0
  {
    FedAllEach(states, ps, levels, held, |ps|);
    forall n | n in states ensures FeedAll(n, states[n], ps, levels, held, |ps|).nextTimer > 0 {
      FeedingKeepsTimers(n, states[n], ps, levels, held, |ps|);
    }
  }

  // ----- what is chosen -----

  /** After sorting, the chosen configuration has the highest configured level not above the
      cluster's level, and none is chosen only if there is no such level. */
  lemma ChosenIsHighest(configs: seq<PolicyConfig>, level: nat)
    ensures var sorted := Sort(configs, LevelOf);
            var r := ChosenAmong(sorted, level, |sorted|);
            && (r.Some? ==> sorted[r.value] in configs && sorted[r.value].level <= level)
            && (forall c | c in configs && c.level <= level :: r.Some? && c.level <= sorted[r.value].level)
  {
    var sorted := Sort(configs, LevelOf);
    var r := ChosenAmong(sorted, level, |sorted|);
    SortSorts(configs, LevelOf);
    if r.Some? { SortMembers(configs, LevelOf, sorted[r.value]); }
    forall c | c in configs && c.level <= level ensures r.Some? && c.level <= sorted[r.value].level {
      SortMembers(configs, LevelOf, c);
      var i :| 0 <= i < |sorted| && sorted[i] == c;
      if i < r.value { assert LevelOf(sorted[i]) <= LevelOf(sorted[r.value]); }
    }
  }

  /** An action has a winner exactly if some entry for it applies ... */
  lemma {:induction false} WinnerExists(actions: seq<PolicyAction>, held: Held, name: string)
    ensures name in Winners(actions, held) <==>
              exists i :: 0 <= i < |actions| && actions[i].name == name && Applies(actions[i], held)
  {
    if actions != [] {
      var front, last := actions[..|actions| - 1], actions[|actions| - 1];
      WinnerExists(front, held, name);
      if last.name == name && Applies(last, held) {
        assert actions[|actions| - 1].name == name;
      } else if name in Winners(front, held) {
        var i :| 0 <= i < |front| && front[i].name == name && Applies(front[i], held);
        assert actions[i] == front[i];
      } else {
        assert forall i | 0 <= i < |front| :: front[i] == actions[i];
      }
    }
  }

  /** Entry i is the last one for the action that applies. */
  predicate LastApplying(actions: seq<PolicyAction>, held: Held, name: string, i: nat) {
    && i < |actions| && actions[i].name == name && Applies(actions[i], held)
    && forall j | i < j < |actions| :: !(actions[j].name == name && Applies(actions[j], held))
  }

  lemma WinnerGrows(actions: seq<PolicyAction>, a: PolicyAction, held: Held, name: string, i: nat)
    requires LastApplying(actions, held, name, i) && !(a.name == name && Applies(a, held))
    ensures LastApplying(actions + [a], held, name, i) && (actions + [a])[i] == actions[i]
  {}

  /** ... and the winner is the last one that does. */
  lemma {:induction false} LastApplicableWins(actions: seq<PolicyAction>, held: Held, name: string)
    requires name in Winners(actions, held)
    ensures exists i: nat :: LastApplying(actions, held, name, i) && actions[i] == Winners(actions, held)[name]
  {
    var front, last := actions[..|actions| - 1], actions[|actions| - 1];
    assert actions == front + [last];
    if last.name == name && Applies(last, held) {
      assert LastApplying(actions, held, name, |actions| - 1);
    } else {
      assert Winners(actions, held)[name] == Winners(front, held)[name];
      LastApplicableWins(front, held, name);
      var i: nat :| LastApplying(front, held, name, i) && front[i] == Winners(front, held)[name];
      WinnerGrows(front, last, held, name, i);
      assert LastApplying(actions, held, name, i) && actions[i] == Winners(actions, held)[name];
    }
  }
}
