/**
 One thermal action: values proposed in a round, delayed values that count only after their timer
 has fired, arbitration to the minimum or maximum, and output only when the value changes. The
 representative is the big-core frequency limit; other actions differ in `fallback` and `reset`.
 */
module ThermalAction {
  import opened Options
  import opened Sets

  /** A delayed value; `timerId` is zero until its timer has been created. */
  datatype Delayed = Delayed(completed: bool, value: nat, delayTime: nat, timerId: nat)

  datatype State = State(
    strict: bool, fallback: nat, reset: nat,
    values: seq<nat>,            // immediate values of the current round
    last: nat,                   // the value sent last
    delayed: map<nat, Delayed>,
    proposed: set<nat>,          // delayed ids proposed in the current round
    live: set<(nat, nat)>,       // running timers, each with the id of the entry it fires for
    nextTimer: nat,              // timer ids from here on have never been used
    device: Option<nat>,         // the value the device holds, None once it has lost it
    decisions: seq<nat>)         // the values handed to the observer, in order

  // ----- arbitration -----

  ghost function Greatest(s: set<nat>): (m: nat)
    requires s != {}
    ensures m in s && forall x | x in s :: x <= m
  {
    var x :| x in s;
    if s == {x} then x else
      var m := Greatest(s - {x});
      assert forall y | y in s :: y == x || y in s - {x};
      if m > x then m else x
  }

  ghost function Arbitrated(strict: bool, fallback: nat, fed: set<nat>): nat {
    if fed == {} then fallback else if strict then Smallest(fed) else Greatest(fed)
  }

  lemma ArbitratedIs(strict: bool, fallback: nat, fed: set<nat>, v: nat)
    requires v in fed && forall x | x in fed :: if strict then v <= x else x <= v
    ensures Arbitrated(strict, fallback, fed) == v
  {}

  function Members(s: seq<nat>): set<nat> { set v | v in s }

  lemma MembersSnoc(s: seq<nat>, v: nat)
    ensures Members(s + [v]) == Members(s) + {v}
  {}

  /** The values of the completed entries among `done`. */
  ghost function FedBy(s: State, done: set<nat>): set<nat> {
    set id | id in s.delayed && id in done && s.delayed[id].completed :: s.delayed[id].value
  }

  /** The values an execution in this state arbitrates over. */
  ghost function Fed(s: State): set<nat> { Members(s.values) + FedBy(s, s.delayed.Keys) }

  ghost function Value(s: State): nat { Arbitrated(s.strict, s.fallback, Fed(s)) }

  // ----- steps -----

  datatype Event =
    | Propose(id: nat, delay: Delayed)
    | AddValue(id: nat, value: Option<nat>)           // None is the empty string
    | Execute(created: map<nat, nat>, nextTimer: nat)   // the timer ids handed out, by entry
    | Fire(timerId: nat, id: nat)
    | Reset

  function Proposed(s: State, id: nat, d: Delayed): State {
    s.(delayed := if id in s.delayed then s.delayed else s.delayed[id := d], proposed := s.proposed + {id})
  }

  function WithValue(s: State, id: nat, value: Option<nat>): State {
    if value.None? then s
    else if id == 0 then s.(values := s.values + [value.value])
    else if id in s.delayed then s.(delayed := s.delayed[id := s.delayed[id].(value := value.value)])
    else s
  }

  /** Entries among `done` that this round did not propose are gone, and so are their timers. */
  function Swept(s: State, done: set<nat>): State {
    s.(delayed := map id | id in s.delayed && (id in s.proposed || id !in done) :: s.delayed[id],
       live := set p | p in s.live && p.0 !in StoppedTimers(s, done))
  }

  function StoppedTimers(s: State, done: set<nat>): set<nat> {
    set id | id in s.delayed && id in done && id !in s.proposed && !s.delayed[id].completed :: s.delayed[id].timerId
  }

  /** Entries still waiting for a timer. */
  function Waiting(s: State): set<nat> {
    set id | id in s.delayed && !s.delayed[id].completed && s.delayed[id].timerId == 0
  }

  function Started(s: State, created: map<nat, nat>): State {
    s.(delayed := map id | id in s.delayed ::
                    if id in created then s.delayed[id].(timerId := created[id]) else s.delayed[id],
       live := s.live + TimersOf(created))
  }

  function TimersOf(created: map<nat, nat>): set<(nat, nat)> { set id | id in created :: (created[id], id) }

  /** The state in which an `Execute` arbitrates. */
  function Prepared(s: State, created: map<nat, nat>, nextTimer: nat): State {
    Started(Swept(s, s.delayed.Keys).(proposed := {}), created).(nextTimer := nextTimer)
  }

  function Completed(s: State, id: nat): State
    requires id in s.delayed
  {
    s.(delayed := s.delayed[id := s.delayed[id].(completed := true)])
  }

  /** Arbitrate and send the value if it is not the one sent last. */
  ghost function Inner(s: State): State {
    s.(values := [], last := Value(s), device := if Value(s) != s.last then Some(Value(s)) else s.device,
       decisions := if Value(s) != s.last then s.decisions + [Value(s)] else s.decisions)
  }

  /** Every timer id comes from the unused range, and no two entries share one. */
  ghost predicate HandedOut(created: map<nat, nat>, from: nat, to: nat) {
    && (forall id | id in created :: from <= created[id] < to)
    && (forall id, id' | id in created && id' in created && id != id' :: created[id] != created[id'])
  }

  ghost predicate Enabled(s: State, e: Event) {
    match e
    case Propose(_, d) => !d.completed && d.timerId == 0
    case AddValue(_, _) => true
    case Execute(created, nextTimer) =>
      && created.Keys == Waiting(Swept(s, s.delayed.Keys))
      && 0 < s.nextTimer <= nextTimer && HandedOut(created, s.nextTimer, nextTimer)
    case Fire(t, id) => (t, id) in s.live && id in s.delayed
    case Reset => true
  }

  ghost function Apply(s: State, e: Event): State
    requires Enabled(s, e)
  {
    match e
    case Propose(id, d) => Proposed(s, id, d)
    case AddValue(id, v) => WithValue(s, id, v)
    case Execute(created, nextTimer) => Inner(Prepared(s, created, nextTimer))
    case Fire(t, id) => var r := Inner(Completed(s, id)); r.(live := set p | p in r.live && p.0 != t)
    case Reset => s.(last := s.reset, device := None)
  }

  function Initial(strict: bool, fallback: nat, reset: nat): State {
    State(strict, fallback, reset, [], reset, map[], {}, {}, 1, None, [])
  }

  // ----- the action object -----

  class ActionCpuBig {
    const fallback: nat
    const reset: nat
    var isStrict: bool
    var valueList: seq<nat>
    var lastValue: nat
    var policyActionMap: map<nat, Delayed>
    var actionIdList: set<nat>
    // the time service, the device and the observer, as far as this action uses them
    var timers: set<(nat, nat)>
    var nextTimerId: nat
    var device: Option<nat>
    var decisions: seq<nat>

    ghost function Snapshot(): State
      reads this
    {
      State(isStrict, fallback, reset, valueList, lastValue, policyActionMap, actionIdList,
            timers, nextTimerId, device, decisions)
    }

    constructor (strict: bool, fallback: nat, reset: nat)
      ensures Snapshot() == Initial(strict, fallback, reset)
    {
      this.fallback, this.reset, isStrict := fallback, reset, strict;
      valueList, lastValue := [], reset;
      policyActionMap, actionIdList := map[], {};
      timers, nextTimerId, device, decisions := {}, 1, None, [];
    }

    method AddActionDelayTime(actionId: nat, delayTime: Delayed)
      modifies this`policyActionMap, this`actionIdList
      ensures Snapshot() == Proposed(old(Snapshot()), actionId, delayTime)
    {
      if actionId !in policyActionMap {
        policyActionMap := policyActionMap[actionId := delayTime];
      }
      actionIdList := actionIdList + {actionId};
    }

    method AddActionValue(actionId: nat, value: Option<nat>)
      modifies this`policyActionMap, this`valueList
      ensures Snapshot() == WithValue(old(Snapshot()), actionId, value)
    {
      if value.None? {
        return;
      }
      if actionId > 0 {
        if actionId in policyActionMap {
          policyActionMap := policyActionMap[actionId := policyActionMap[actionId].(value := value.value)];
        }
      } else {
        valueList := valueList + [value.value];
      }
    }

    /** The round: sweep the entries nobody proposed, start timers for the new ones, arbitrate. */
    method Execute() returns (ghost created: map<nat, nat>)
      requires nextTimerId > 0
      modifies this`policyActionMap, this`actionIdList, this`timers, this`nextTimerId,
               this`valueList, this`lastValue, this`device, this`decisions
      ensures nextTimerId > 0
      ensures Enabled(old(Snapshot()), Event.Execute(created, nextTimerId))
      ensures Snapshot() == Apply(old(Snapshot()), Event.Execute(created, nextTimerId))
    {
      Sweep();
      actionIdList := {};
      created := StartTimers();
      ExecuteInner();
    }

    method Sweep()
      modifies this`policyActionMap, this`timers
      ensures Snapshot() == Swept(old(Snapshot()), old(policyActionMap).Keys)
    {
      ghost var s := Snapshot();
      var todo := policyActionMap.Keys;
      ghost var done: set<nat> := {};
      assert Snapshot() == Swept(s, done);
      while todo != {}
        invariant done + todo == s.delayed.Keys && done !! todo
        invariant Snapshot() == Swept(s, done)
        decreases todo
      {
        var id :| id in todo;
        if id !in actionIdList {
          if !policyActionMap[id].completed {
            timers := set p | p in timers && p.0 != policyActionMap[id].timerId;
          }
          policyActionMap := policyActionMap - {id};
        }
        SweptOne(s, done, id);
        todo, done := todo - {id}, done + {id};
      }
    }

    method StartTimers() returns (ghost created: map<nat, nat>)
      requires nextTimerId > 0
      modifies this`policyActionMap, this`timers, this`nextTimerId
      ensures old(nextTimerId) <= nextTimerId
      ensures created.Keys == Waiting(old(Snapshot()))
      ensures HandedOut(created, old(nextTimerId), nextTimerId)
      ensures Snapshot() == Started(old(Snapshot()), created).(nextTimer := nextTimerId)
    {
      ghost var s := Snapshot();
      created := map[];
      var todo := policyActionMap.Keys;
      ghost var done: set<nat> := {};
      StartedNone(s);
      while todo != {}
        invariant done + todo == s.delayed.Keys && done !! todo && Starting(s, created, done)
        decreases todo
      {
        var id :| id in todo;
        created := StartTimer(id, s, created, done);
        todo, done := todo - {id}, done + {id};
      }
      assert Waiting(s) * done == Waiting(s);
    }

    /** The entries `done` have got the timers they were waiting for. */
    ghost predicate Starting(s: State, created: map<nat, nat>, done: set<nat>)
      reads this`policyActionMap, this`timers, this`nextTimerId
    {
      && 0 < s.nextTimer <= nextTimerId
      && created.Keys == Waiting(s) * done && HandedOut(created, s.nextTimer, nextTimerId)
      && policyActionMap == Started(s, created).delayed && timers == Started(s, created).live
    }

    /** The body of the loop. */
    method StartTimer(id: nat, ghost s: State, ghost created: map<nat, nat>, ghost done: set<nat>)
      returns (ghost created': map<nat, nat>)
      requires Starting(s, created, done) && id in s.delayed && id !in done
      modifies this`policyActionMap, this`timers, this`nextTimerId
      ensures Starting(s, created', done + {id})
    {
      created' := created;
      assert policyActionMap[id] == s.delayed[id];
      if !(policyActionMap[id].completed || policyActionMap[id].timerId > 0) {
        StartedOne(s, created, id, nextTimerId);
        HandOutOne(created, s.nextTimer, nextTimerId, id);
        policyActionMap := policyActionMap[id := policyActionMap[id].(timerId := nextTimerId)];
        timers := timers + {(nextTimerId, id)};
        created' := created[id := nextTimerId];
        nextTimerId := nextTimerId + 1;
      }
    }

    /** The callback of a running timer. */
    method OnTrigger(timerId: nat, actionId: nat)
      requires (timerId, actionId) in timers && actionId in policyActionMap
      modifies this`policyActionMap, this`timers, this`valueList, this`lastValue, this`device, this`decisions
      ensures Snapshot() == Apply(old(Snapshot()), Fire(timerId, actionId))
    {
      policyActionMap := policyActionMap[actionId := policyActionMap[actionId].(completed := true)];
      ExecuteInner();
      timers := set p | p in timers && p.0 != timerId;
    }

    method ExecuteInner()
      modifies this`valueList, this`lastValue, this`device, this`decisions
      ensures Snapshot() == Inner(old(Snapshot()))
    {
      ghost var s := Snapshot();
      var todo := policyActionMap.Keys;
      ghost var done: set<nat> := {};
      while todo != {}
        invariant done + todo == s.delayed.Keys && done !! todo
        invariant Snapshot() == s.(values := valueList)
        invariant Members(valueList) == Members(s.values) + FedBy(s, done)
        decreases todo
      {
        var id :| id in todo;
        if policyActionMap[id].completed {
          MembersSnoc(valueList, policyActionMap[id].value);
          valueList := valueList + [policyActionMap[id].value];
        }
        FedByOne(s, done, id);
        todo, done := todo - {id}, done + {id};
      }
      assert done == s.delayed.Keys;
      var value := GetActionValue();
      if value != lastValue {
        device := Some(value);
        decisions := decisions + [value];
        lastValue := value;
      }
      valueList := [];
    }

    method GetActionValue() returns (value: nat)
      ensures value == Arbitrated(isStrict, fallback, Members(valueList))
    {
      if valueList == [] {
        return fallback;
      }
      value := valueList[0];
      for i := 1 to |valueList|
        invariant value in valueList
        invariant forall j | 0 <= j < i :: if isStrict then value <= valueList[j] else valueList[j] <= value
      {
        if isStrict {
          if valueList[i] < value { value := valueList[i]; }
        } else {
          if valueList[i] > value { value := valueList[i]; }
        }
      }
      ArbitratedIs(isStrict, fallback, Members(valueList), value);
    }

    /** The device service was restarted: what it held is lost. */
    method ResetActionValue()
      modifies this`lastValue, this`device
      ensures Snapshot() == Apply(old(Snapshot()), Reset)
    {
      lastValue := reset;
      device := None;
    }
  }

  lemma FedByOne(s: State, done: set<nat>, id: nat)
    requires id in s.delayed
    ensures FedBy(s, done + {id})
         == FedBy(s, done) + if s.delayed[id].completed then {s.delayed[id].value} else {}
  {}

  lemma SweptOne(s: State, done: set<nat>, id: nat)
    requires id in s.delayed && id !in done
    ensures id in s.proposed ==> Swept(s, done + {id}) == Swept(s, done)
    ensures id !in s.proposed ==>
              Swept(s, done + {id}).delayed == Swept(s, done).delayed - {id} &&
              Swept(s, done + {id}).live ==
                if s.delayed[id].completed then Swept(s, done).live
                else set p | p in Swept(s, done).live && p.0 != s.delayed[id].timerId
  {}

  lemma TimersOfMember(created: map<nat, nat>, p: (nat, nat))
    ensures p in TimersOf(created) <==> p.1 in created && created[p.1] == p.0
  {}

  lemma HandOutOne(created: map<nat, nat>, from: nat, to: nat, id: nat)
    requires HandedOut(created, from, to) && from <= to && id !in created
    ensures HandedOut(created[id := to], from, to + 1)
  {}

  lemma StartedNone(s: State)
    ensures Started(s, map[]) == s
  {}

  lemma StartedOne(s: State, created: map<nat, nat>, id: nat, timerId: nat)
    requires id in s.delayed && id !in created
    ensures Started(s, created[id := timerId]).delayed
         == Started(s, created).delayed[id := s.delayed[id].(timerId := timerId)]
    ensures Started(s, created[id := timerId]).live == Started(s, created).live + {(timerId, id)}
  {
    var created' := created[id := timerId];
    forall p: (nat, nat) ensures p in TimersOf(created') <==> p in TimersOf(created) + {(timerId, id)} {
      TimersOfMember(created', p);
      TimersOfMember(created, p);
    }
  }
}
