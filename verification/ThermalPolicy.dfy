/** The policy engine: it updates its clusters, picks configurations and drives the actions. */
module ThermalPolicyEngine {
  import opened ClusterSpec
  import opened ThermalAction
  import opened PolicySpec
  import opened SensorCluster
  import opened Options

  class ThermalPolicy {
    // the source's map from names to clusters, in the order it is walked in
    var clusterNames: seq<string>
    var sensorClusters: seq<ThermalConfigSensorCluster>
    var clusterPolicyMap: seq<ClusterPolicy>
    var clusterLevelMap: map<string, nat>
    // the actions of the action manager
    var actionMap: map<string, ActionCpuBig>
    // the objects the two collections hold; an action object has one name
    ghost var clusterObjects: set<ThermalConfigSensorCluster>
    ghost var nameOf: map<ActionCpuBig, string>

    ghost predicate DistinctClusters()
      reads this`sensorClusters, this`clusterObjects
    {
      && (forall i | 0 <= i < |sensorClusters| :: sensorClusters[i] in clusterObjects)
      && forall i, j | 0 <= i < j < |sensorClusters| :: sensorClusters[i] != sensorClusters[j]
    }

    ghost predicate DistinctActions()
      reads this`actionMap, this`nameOf
    {
      forall n | n in actionMap :: actionMap[n] in nameOf && nameOf[actionMap[n]] == n
    }

    /** The clusters and the level map of this engine are those of `e`. */
    ghost predicate Represents(e: Engine)
      reads this`clusterNames, this`sensorClusters, this`clusterLevelMap, this`clusterObjects, clusterObjects
    {
      && |e.clusters| == |sensorClusters| == |clusterNames|
      && e.levels == clusterLevelMap
      && forall i | 0 <= i < |sensorClusters| ::
           && sensorClusters[i] in clusterObjects
           && e.clusters[i]
              == NamedCluster(clusterNames[i], sensorClusters[i].Configuration(), sensorClusters[i].latestLevel)
    }

    /** The actions of this engine are in these states. */
    ghost predicate ActionsAre(states: map<string, ThermalAction.State>)
      reads this`actionMap, this`nameOf, nameOf.Keys
    {
      && states.Keys == actionMap.Keys
      && forall n | n in actionMap :: actionMap[n] in nameOf && actionMap[n].Snapshot() == states[n]
    }

    constructor (names: seq<string>, clusters: seq<ThermalConfigSensorCluster>, policies: seq<ClusterPolicy>,
                 actions: map<string, ActionCpuBig>)
      requires |names| == |clusters| && forall i, j | 0 <= i < j < |clusters| :: clusters[i] != clusters[j]
      requires forall n, n' | n in actions && n' in actions && actions[n] == actions[n'] :: n == n'
      ensures DistinctClusters() && DistinctActions()
      ensures clusterNames == names && sensorClusters == clusters
      ensures clusterPolicyMap == policies && actionMap == actions && clusterLevelMap == map[]
    {
      clusterNames, sensorClusters, clusterPolicyMap, actionMap := names, clusters, policies, actions;
      clusterLevelMap := map[];
      clusterObjects := set c | c in clusters;
      nameOf := map a | a in actions.Values :: NameIn(actions, a);
    }

    method SortLevel()
      modifies this`clusterPolicyMap
      ensures |clusterPolicyMap| == |old(clusterPolicyMap)|
      ensures forall i | 0 <= i < |clusterPolicyMap| :: clusterPolicyMap[i] == SortPolicy(old(clusterPolicyMap)[i])
    {
      for i := 0 to |clusterPolicyMap|
        invariant |clusterPolicyMap| == |old(clusterPolicyMap)|
        invariant forall j | 0 <= j < i :: clusterPolicyMap[j] == SortPolicy(old(clusterPolicyMap)[j])
        invariant forall j | i <= j < |clusterPolicyMap| :: clusterPolicyMap[j] == old(clusterPolicyMap)[j]
      {
        clusterPolicyMap := clusterPolicyMap[i := SortPolicy(clusterPolicyMap[i])];
      }
    }

    /** Every action has executed a round on what the policies fed it. */
    ghost predicate ActionsExecuted(states: map<string, ThermalAction.State>, held: Held)
      reads this`actionMap, this`nameOf, this`clusterPolicyMap, this`clusterLevelMap, nameOf.Keys
    {
      && states.Keys == actionMap.Keys
      && forall n | n in actionMap ::
           && actionMap[n] in nameOf
           && ExecutesTo(FeedAll(n, states[n], clusterPolicyMap, clusterLevelMap, held, |clusterPolicyMap|),
                         actionMap[n].Snapshot())
    }

    /** The whole engine, with each of its actions, has taken one round. */
    ghost predicate RoundTaken(e: Engine, env: Env, states: map<string, ThermalAction.State>, e': Engine)
      reads this`actionMap, this`nameOf, this`clusterPolicyMap, nameOf.Keys
    {
      && states.Keys == actionMap.Keys
      && forall n | n in actionMap ::
           && actionMap[n] in nameOf
           && Round(System(e, states[n]), env, clusterPolicyMap, n, System(e', actionMap[n].Snapshot()))
    }

    lemma RoundFollows(e: Engine, env: Env, states: map<string, ThermalAction.State>)
      requires Represents(Decided(e, env, |e.clusters|)) && ActionsExecuted(states, env.held)
      ensures RoundTaken(e, env, states, Decided(e, env, |e.clusters|))
    {}

    /** A round of the whole engine. */
    method ExecutePolicy(env: Env, ghost e: Engine, ghost states: map<string, ThermalAction.State>)
      requires DistinctClusters() && Represents(e) && Sound(e)
      requires DistinctActions() && ActionsAre(states) && forall n | n in states :: states[n].nextTimer > 0
      modifies this`clusterLevelMap, clusterObjects, nameOf.Keys
      ensures Represents(Decided(e, env, |e.clusters|)) && RoundTaken(e, env, states, Decided(e, env, |e.clusters|))
    {
      LevelDecision(env, e);
      PolicyDecision(env.held, states);
      RoundFollows(e, env, states);
    }

    /** Every cluster takes its step, and the level map records the results. */
    method LevelDecision(env: Env, ghost e: Engine)
      requires DistinctClusters() && Represents(e) && Sound(e)
      modifies this`clusterLevelMap, clusterObjects
      ensures Represents(Decided(e, env, |e.clusters|))
    {
      for k := 0 to |sensorClusters|
        invariant Represents(Decided(e, env, k))
      {
        UpdateCluster(k, env, e);
      }
    }

    /** The body of the loop: one cluster moves, the others stay. */
    method UpdateCluster(k: nat, env: Env, ghost e: Engine)
      requires DistinctClusters() && Sound(e) && k < |sensorClusters| == |e.clusters| && Represents(Decided(e, env, k))
      modifies this`clusterLevelMap, sensorClusters[k]
      ensures Represents(Decided(e, env, k + 1))
    {
      ghost var before := Decided(e, env, k);
      DecidedSound(e, env, k);
      assert ClusterOk(before.clusters[k]);
      sensorClusters[k].UpdateThermalLevel(env);
      clusterLevelMap := clusterLevelMap[clusterNames[k] := sensorClusters[k].latestLevel];
      assert Represents(Updated(before, env, k));
    }

    /** The policies feed the actions, and every action executes. */
    method PolicyDecision(held: Held, ghost states: map<string, ThermalAction.State>)
      requires DistinctActions() && ActionsAre(states) && forall n | n in states :: states[n].nextTimer > 0
      modifies nameOf.Keys
      ensures ActionsExecuted(states, held)
    {
      FeedActions(held, states);
      ghost var fed := FedAll(states, clusterPolicyMap, clusterLevelMap, held, |clusterPolicyMap|);
      FedIsReady(states, clusterPolicyMap, clusterLevelMap, held);
      ActionExecution(fed);
    }

    /** Each cluster policy hands the winning entries of its chosen configuration to the actions. */
    method FeedActions(held: Held, ghost states: map<string, ThermalAction.State>)
      requires DistinctActions() && ActionsAre(states)
      modifies nameOf.Keys
      ensures ActionsAre(FedAll(states, clusterPolicyMap, clusterLevelMap, held, |clusterPolicyMap|))
    {
      for k := 0 to |clusterPolicyMap|
        invariant ActionsAre(FedAll(states, clusterPolicyMap, clusterLevelMap, held, k))
      {
        DecidePolicy(clusterPolicyMap[k], held, FedAll(states, clusterPolicyMap, clusterLevelMap, held, k));
      }
    }

    /** The body of that loop, with the search from the highest configuration down. */
    method DecidePolicy(p: ClusterPolicy, held: Held, ghost states: map<string, ThermalAction.State>)
      requires DistinctActions() && ActionsAre(states)
      modifies nameOf.Keys
      ensures ActionsAre(FedFrom(states, p, clusterLevelMap, held))
    {
      ghost var actions := Contribution(p, clusterLevelMap);
      FedFromContribution(states, p, clusterLevelMap, held);
      if p.cluster == "" || p.configs == [] {
        return;
      }
      if p.cluster !in clusterLevelMap {
        return;
      }
      var k := FindConfig(p.configs, clusterLevelMap[p.cluster]);
      if k == 0 {
        return;
      }
      assert actions == Some(p.configs[k - 1].actions);
      ActionDecision(p.configs[k - 1].actions, held, states);
    }

    /** One more than the position of the configuration to use, or 0. */
    method FindConfig(configs: seq<PolicyConfig>, clusterCurrLev: nat) returns (k: nat)
      ensures k <= |configs|
      ensures ChosenAmong(configs, clusterCurrLev, |configs|) == if k == 0 then None else Some(k - 1)
    {
      k := |configs|;
      while k > 0
        invariant k <= |configs|
        invariant ChosenAmong(configs, clusterCurrLev, |configs|) == ChosenAmong(configs, clusterCurrLev, k)
      {
        if clusterCurrLev >= configs[k - 1].level {
          return;
        }
        k := k - 1;
      }
    }

    method ActionDecision(actionList: seq<PolicyAction>, held: Held, ghost states: map<string, ThermalAction.State>)
      requires DistinctActions() && ActionsAre(states)
      modifies nameOf.Keys
      ensures ActionsAre(FedWinners(states, Winners(actionList, held), Winners(actionList, held).Keys))
    {
      var actionPolicyInfos := LastEntries(actionList, held);
      var todo := actionPolicyInfos.Keys;
      ghost var done: set<string> := {};
      while todo != {}
        invariant done + todo == actionPolicyInfos.Keys && done !! todo
        invariant ActionsAre(FedWinners(states, actionPolicyInfos, done))
        decreases todo
      {
        var name :| name in todo;
        HandOverOne(name, actionPolicyInfos, states, done);
        todo, done := todo - {name}, done + {name};
      }
      assert done == actionPolicyInfos.Keys;
    }

    /** The body of the loop. */
    method HandOverOne(name: string, actionPolicyInfos: map<string, PolicyAction>,
                       ghost states: map<string, ThermalAction.State>, ghost done: set<string>)
      requires DistinctActions() && ActionsAre(FedWinners(states, actionPolicyInfos, done))
      requires name in actionPolicyInfos && name !in done
      modifies nameOf.Keys
      ensures ActionsAre(FedWinners(states, actionPolicyInfos, done + {name}))
    {
      HandOver(name, actionPolicyInfos[name], FedWinners(states, actionPolicyInfos, done));
      FedWinnersOne(states, actionPolicyInfos, done, name);
    }

    method LastEntries(actionList: seq<PolicyAction>, held: Held) returns (infos: map<string, PolicyAction>)
      ensures infos == Winners(actionList, held)
    {
      infos := map[];
      for i := 0 to |actionList|
        invariant infos == Winners(actionList[..i], held)
      {
        assert actionList[..i + 1][..i] == actionList[..i];
        var decided := true;
        if actionList[i].isProp {
          decided := StateMachineDecision(actionList[i].props, held);
        }
        if decided {
          infos := infos[actionList[i].name := actionList[i]];
        }
      }
      assert actionList[..|actionList|] == actionList;
    }

    method StateMachineDecision(props: map<string, string>, held: Held) returns (ok: bool)
      ensures ok <==> forall k | k in props :: (k, props[k]) in held
    {
      var todo := props.Keys;
      while todo != {}
        invariant todo <= props.Keys
        invariant forall k | k in props.Keys - todo :: (k, props[k]) in held
        decreases todo
      {
        var prop :| prop in todo;
        if (prop, props[prop]) !in held {
          return false;
        }
        todo := todo - {prop};
      }
      return true;
    }

    /** One entry goes to its action, if the action exists. */
    method HandOver(name: string, a: PolicyAction, ghost states: map<string, ThermalAction.State>)
      requires DistinctActions() && ActionsAre(states)
      modifies if name in actionMap then {actionMap[name]} else {}
      ensures ActionsAre(FedOne(states, name, a))
    {
      if name !in actionMap {
        return;
      }
      HandTo(actionMap[name], a);
    }

    /** The actions outside `todo` have executed, the others not yet. */
    ghost predicate Executing(todo: set<string>, states: map<string, ThermalAction.State>)
      reads this`actionMap, this`nameOf, nameOf.Keys
    {
      && states.Keys == actionMap.Keys
      && forall n | n in actionMap ::
           && actionMap[n] in nameOf
           && if n in todo then actionMap[n].Snapshot() == states[n] else ExecutesTo(states[n], actionMap[n].Snapshot())
    }

    /** Every action executes its round. */
    method ActionExecution(ghost states: map<string, ThermalAction.State>)
      requires DistinctActions() && ActionsAre(states) && forall n | n in states :: states[n].nextTimer > 0
      modifies nameOf.Keys
      ensures Executing({}, states)
    {
      var todo := actionMap.Keys;
      while todo != {}
        invariant todo <= actionMap.Keys && Executing(todo, states)
        decreases todo
      {
        var name :| name in todo;
        ExecuteAt(name, todo, states);
        todo := todo - {name};
      }
    }

    method ExecuteAt(name: string, ghost todo: set<string>, ghost states: map<string, ThermalAction.State>)
      requires DistinctActions() && name in todo && name in actionMap && Executing(todo, states)
      requires states[name].nextTimer > 0
      modifies actionMap[name]
      ensures Executing(todo - {name}, states)
    {
      ExecuteOne(actionMap[name]);
    }
  }

  method ExecuteOne(thermalAction: ActionCpuBig)
    requires thermalAction.Snapshot().nextTimer > 0
    modifies thermalAction
    ensures ExecutesTo(old(thermalAction.Snapshot()), thermalAction.Snapshot())
  {
    ghost var created := thermalAction.Execute();
    assert Enabled(old(thermalAction.Snapshot()), Event.Execute(created, thermalAction.nextTimerId));
  }

  ghost function NameIn(actions: map<string, ActionCpuBig>, a: ActionCpuBig): (n: string)
    requires a in actions.Values
    ensures n in actions && actions[n] == a
  {
    var n :| n in actions && actions[n] == a; n
  }

  method HandTo(thermalAction: ActionCpuBig, a: PolicyAction)
    modifies thermalAction
    ensures thermalAction.Snapshot() == FeedOne(old(thermalAction.Snapshot()), a)
  {
    if a.isProp && !a.delay.NoDelay? {
      if a.delay.BadDelay? {
        return;
      }
      thermalAction.AddActionDelayTime(a.delay.id, Delayed(false, 0, a.delay.time, 0));
      thermalAction.AddActionValue(a.delay.id, a.value);
      return;
    }
    thermalAction.AddActionValue(0, a.value);
  }
}
