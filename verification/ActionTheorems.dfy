/** Timers and device output of one action over every run of rounds, timer firings and resets. */
module ActionTheorems {
  import opened ThermalAction
  import opened Options

  // ----- runs -----

  /** Every event of the run is possible when it happens: new entries arrive not completed and
      without a timer, the time service hands out unused ids, and only running timers fire. */
  ghost predicate ValidRun(s: State, es: seq<Event>)
    decreases |es|, 0
  {
    es == [] ||
    (ValidRun(s, es[..|es| - 1]) && Enabled(After(s, es[..|es| - 1]), es[|es| - 1]))
  }

  ghost function After(s: State, es: seq<Event>): State
    requires ValidRun(s, es)
    decreases |es|, 1
  {
    if es == [] then s else Apply(After(s, es[..|es| - 1]), es[|es| - 1])
  }

  lemma Extend(s: State, es: seq<Event>, e: Event)
    requires ValidRun(s, es) && Enabled(After(s, es), e)
    ensures ValidRun(s, es + [e]) && After(s, es + [e]) == Apply(After(s, es), e)
  {
    assert (es + [e])[..|es|] == es;
  }

  lemma {:induction false} RunConcat(s: State, before: seq<Event>, after: seq<Event>)
    requires ValidRun(s, before) && ValidRun(After(s, before), after)
    ensures ValidRun(s, before + after) && After(s, before + after) == After(After(s, before), after)
  {
    if after == [] {
      assert before + after == before;
    } else {
      var front, e := after[..|after| - 1], after[|after| - 1];
      RunConcat(s, before, front);
      Extend(s, before + front, e);
      assert before + front + [e] == before + after;
    }
  }

  // ----- timer conservation -----

  ghost function RunningTimers(s: State): set<(nat, nat)> {
    set id | id in s.delayed && !s.delayed[id].completed && s.delayed[id].timerId > 0 :: (s.delayed[id].timerId, id)
  }

  lemma RunningMember(s: State, p: (nat, nat))
    ensures p in RunningTimers(s) <==>
              p.1 in s.delayed && !s.delayed[p.1].completed && s.delayed[p.1].timerId == p.0 > 0
  {}

  ghost predicate TimersDistinct(s: State) {
    forall id, id' | id in s.delayed && id' in s.delayed && id != id' && s.delayed[id].timerId > 0 ::
      s.delayed[id].timerId != s.delayed[id'].timerId
  }

  /** Between any two steps: the running timers are those of the entries that are waiting for
      one, one each; an entry without a timer has been proposed in this round. */
  ghost predicate TimersOk(s: State) {
    && s.nextTimer > 0
    && s.proposed <= s.delayed.Keys
    && (forall id | id in s.delayed ::
          && s.delayed[id].timerId < s.nextTimer
          && (s.delayed[id].completed ==> s.delayed[id].timerId > 0)
          && (s.delayed[id].timerId == 0 ==> id in s.proposed))
    && TimersDistinct(s)
    && s.live == RunningTimers(s)
  }

  lemma SweptKeepsTimers(s: State)
    requires TimersOk(s)
    ensures var r := Swept(s, s.delayed.Keys); r.delayed.Keys == s.proposed && TimersOk(r)
  {
    var r := Swept(s, s.delayed.Keys);
    forall p: (nat, nat) ensures p in r.live <==> p in RunningTimers(r) {
      RunningMember(s, p);
      RunningMember(r, p);
      if p in s.live && p.1 !in s.proposed { assert s.delayed[p.1].timerId in StoppedTimers(s, s.delayed.Keys); }
      if p in s.live && p.0 in StoppedTimers(s, s.delayed.Keys) {
        var id :| id in s.delayed && id !in s.proposed && s.delayed[id].timerId == p.0;
        assert id == p.1;
      }
    }
  }

  lemma StartedKeepsTimers(s: State, created: map<nat, nat>, nextTimer: nat)
    requires TimersOk(s) && created.Keys == Waiting(s)
    requires s.nextTimer <= nextTimer && HandedOut(created, s.nextTimer, nextTimer)
    ensures var r := Started(s, created).(nextTimer := nextTimer, proposed := {});
            && r.delayed.Keys == s.delayed.Keys && TimersOk(r)
            && forall id | id in r.delayed :: r.delayed[id].timerId > 0
  {
    var r := Started(s, created).(nextTimer := nextTimer, proposed := {});
    forall p: (nat, nat) ensures p in r.live <==> p in RunningTimers(r) {
      TimersOfMember(created, p);
      RunningMember(s, p);
      RunningMember(r, p);
    }
  }

  lemma PreparedKeepsTimers(s: State, created: map<nat, nat>, nextTimer: nat)
    requires TimersOk(s) && Enabled(s, Event.Execute(created, nextTimer))
    ensures var r := Prepared(s, created, nextTimer);
            && TimersOk(r) && r.delayed.Keys == s.proposed
            && forall id | id in r.delayed :: r.delayed[id].timerId > 0
  {
    var r := Swept(s, s.delayed.Keys);
    SweptKeepsTimers(s);
    StartedKeepsTimers(r, created, nextTimer);
    assert Prepared(s, created, nextTimer) == Started(r, created).(nextTimer := nextTimer, proposed := {});
  }

  /** Steps that create, stop and complete nothing keep the running timers. */
  lemma SameTimers(s: State, r: State)
    requires TimersOk(s) && r.live == s.live && r.nextTimer == s.nextTimer
    requires s.delayed.Keys <= r.delayed.Keys && s.proposed <= r.proposed <= r.delayed.Keys
    requires forall id | id in s.delayed ::
               r.delayed[id].completed == s.delayed[id].completed && r.delayed[id].timerId == s.delayed[id].timerId
    requires forall id | id in r.delayed && id !in s.delayed ::
               !r.delayed[id].completed && r.delayed[id].timerId == 0 && id in r.proposed
    ensures TimersOk(r)
  {}

  lemma ExecuteKeepsTimers(s: State, e: Event)
    requires TimersOk(s) && e.Execute? && Enabled(s, e)
    ensures TimersOk(Apply(s, e))
  {
    var p := Prepared(s, e.created, e.nextTimer);
    PreparedKeepsTimers(s, e.created, e.nextTimer);
    SameTimers(p, Apply(s, e));
  }

  lemma FireKeepsTimers(s: State, e: Event)
    requires TimersOk(s) && e.Fire? && Enabled(s, e)
    ensures TimersOk(Apply(s, e))
  {
    var r := Apply(s, e);
    RunningMember(s, (e.timerId, e.id));
    forall p: (nat, nat) ensures p in r.live <==> p in RunningTimers(r) {
      RunningMember(s, p);
      RunningMember(r, p);
    }
  }

  lemma ApplyKeepsTimers(s: State, e: Event)
    requires TimersOk(s) && Enabled(s, e)
    ensures TimersOk(Apply(s, e))
  {
    match e
    case Execute(_, _) => ExecuteKeepsTimers(s, e);
    case Fire(_, _) => FireKeepsTimers(s, e);
    case Propose(_, _) => SameTimers(s, Apply(s, e));
    case AddValue(_, _) => SameTimers(s, Apply(s, e));
    case Reset => SameTimers(s, Apply(s, e));
  }

  lemma {:induction false} RunKeepsTimers(s: State, es: seq<Event>)
    requires TimersOk(s) && ValidRun(s, es)
    ensures TimersOk(After(s, es))
  {
    if es != [] {
      RunKeepsTimers(s, es[..|es| - 1]);
      ApplyKeepsTimers(After(s, es[..|es| - 1]), es[|es| - 1]);
    }
  }

  /** Conservation: in every run from the initial state, right after a round the delayed entries
      are exactly the ids proposed in it, and the running timers exactly those of the entries
      not completed yet, one each. */
  lemma RoundSettlesTimers(strict: bool, fallback: nat, reset: nat, es: seq<Event>)
    requires ValidRun(Initial(strict, fallback, reset), es) && es != [] && es[|es| - 1].Execute?
    ensures var s := Initial(strict, fallback, reset);
            var before, after := After(s, es[..|es| - 1]), After(s, es);
            && after.delayed.Keys == before.proposed && after.proposed == {}
            && after.live == (set id | id in after.delayed && !after.delayed[id].completed ::
                                (after.delayed[id].timerId, id))
            && TimersDistinct(after)
            && forall id | id in after.delayed :: after.delayed[id].timerId > 0
  {
    var s := Initial(strict, fallback, reset);
    var before, e := After(s, es[..|es| - 1]), es[|es| - 1];
    assert TimersOk(s);
    RunKeepsTimers(s, es[..|es| - 1]);
    RunKeepsTimers(s, es);
    PreparedKeepsTimers(before, e.created, e.nextTimer);
    var after := After(s, es);
    assert after.delayed == Prepared(before, e.created, e.nextTimer).delayed;
    AllRunning(after);
  }

  lemma AllRunning(s: State)
    requires forall id | id in s.delayed :: s.delayed[id].timerId > 0
    ensures RunningTimers(s) == set id | id in s.delayed && !s.delayed[id].completed :: (s.delayed[id].timerId, id)
  {}

  /** Round r handed out the timer of entry `id`, and every round from then on proposed the id. */
  ghost predicate ProposedSince(s: State, es: seq<Event>, id: nat, timerId: nat, r: nat)
    requires ValidRun(s, es)
  {
    && r < |es| && es[r].Execute? && id in es[r].created && es[r].created[id] == timerId
    && forall j | r <= j < |es| && es[j].Execute? :: ValidRun(s, es[..j]) && id in After(s, es[..j]).proposed
  }

  lemma SinceExtends(s: State, es: seq<Event>, id: nat, timerId: nat, r: nat)
    requires ValidRun(s, es) && es != [] && ProposedSince(s, es[..|es| - 1], id, timerId, r)
    requires es[|es| - 1].Execute? ==> id in After(s, es[..|es| - 1]).proposed
    ensures ProposedSince(s, es, id, timerId, r)
  {
    var front := es[..|es| - 1];
    forall j | r <= j < |es| && es[j].Execute? ensures ValidRun(s, es[..j]) && id in After(s, es[..j]).proposed {
      assert es[..j] == front[..j];
      if j < |front| { assert front[j].Execute?; }
    }
  }

  lemma TimerComesFromBefore(s: State, e: Event, id: nat)
    requires TimersOk(s) && Enabled(s, e) && !(e.Execute? && id in e.created)
    requires id in Apply(s, e).delayed && Apply(s, e).delayed[id].timerId > 0
    ensures id in s.delayed && s.delayed[id].timerId == Apply(s, e).delayed[id].timerId
    ensures e.Execute? ==> id in s.proposed
  {}

  /** An entry that has a timer, completed or not, has been proposed in every round since the
      one that started the timer. */
  lemma {:induction false} EntriesStayProposed(strict: bool, fallback: nat, reset: nat, es: seq<Event>, id: nat)
    requires ValidRun(Initial(strict, fallback, reset), es)
    requires var s := After(Initial(strict, fallback, reset), es); id in s.delayed && s.delayed[id].timerId > 0
    ensures var s := Initial(strict, fallback, reset);
            exists r :: ProposedSince(s, es, id, After(s, es).delayed[id].timerId, r)
  {
    var s := Initial(strict, fallback, reset);
    var front, e := es[..|es| - 1], es[|es| - 1];
    var t := After(s, es).delayed[id].timerId;
    assert TimersOk(s);
    RunKeepsTimers(s, front);
    if e.Execute? && id in e.created {
      PreparedKeepsTimers(After(s, front), e.created, e.nextTimer);
      assert ProposedSince(s, es, id, t, |es| - 1);
    } else {
      TimerComesFromBefore(After(s, front), e, id);
      EntriesStayProposed(strict, fallback, reset, front, id);
      var r :| ProposedSince(s, front, id, t, r);
      SinceExtends(s, es, id, t, r);
    }
  }

  // ----- edge-triggered output -----

  predicate IsExecution(e: Event) { e.Execute? || e.Fire? }

  /** The value an execution arbitrates: over the immediate values and the completed delayed
      ones for a round, over what a firing timer adds to those left for a firing. */
  ghost function ExecutionValue(s: State, e: Event): nat
    requires Enabled(s, e) && IsExecution(e)
  {
    if e.Execute? then Value(Prepared(s, e.created, e.nextTimer)) else Value(Completed(s, e.id))
  }

  /** The device of an action that sends its value at every execution. */
  ghost function AlwaysSend(s: State, es: seq<Event>): Option<nat>
    requires ValidRun(s, es)
  {
    if es == [] then None else
      var e := es[|es| - 1];
      if IsExecution(e) then Some(ExecutionValue(After(s, es[..|es| - 1]), e))
      else if e.Reset? then None
      else AlwaysSend(s, es[..|es| - 1])
  }

  /** Since the device last lost its value, executions have produced the reset value only. */
  ghost predicate OnlyResetValue(s: State, es: seq<Event>)
    requires ValidRun(s, es)
  {
    es == [] ||
    (var e := es[|es| - 1];
     e.Reset? ||
     (OnlyResetValue(s, es[..|es| - 1]) &&
      (IsExecution(e) ==> ExecutionValue(After(s, es[..|es| - 1]), e) == s.reset)))
  }

  /** Sending on change refines sending every time: over any run the device holds what it would
      hold if every execution sent its value, unless nothing but the reset value has been
      arbitrated since it lost its value; then it holds nothing. */
  lemma {:induction false} EdgeTriggeredOutput(strict: bool, fallback: nat, reset: nat, es: seq<Event>)
    requires ValidRun(Initial(strict, fallback, reset), es)
    ensures var s := Initial(strict, fallback, reset);
            && After(s, es).device == (if OnlyResetValue(s, es) then None else AlwaysSend(s, es))
            && (!OnlyResetValue(s, es) ==> AlwaysSend(s, es) == Some(After(s, es).last))
            && (OnlyResetValue(s, es) ==> After(s, es).last == reset)
            && After(s, es).reset == reset
  {
    if es != [] { EdgeTriggeredOutput(strict, fallback, reset, es[..|es| - 1]); }
  }

  /** So a lost value is repaired by the next execution that arbitrates anything else. */
  lemma NextExecutionRepairs(strict: bool, fallback: nat, reset: nat, es: seq<Event>)
    requires ValidRun(Initial(strict, fallback, reset), es) && es != [] && IsExecution(es[|es| - 1])
    ensures var s := Initial(strict, fallback, reset);
            var v := ExecutionValue(After(s, es[..|es| - 1]), es[|es| - 1]);
            After(s, es).device != Some(v) ==> v == reset && After(s, es).device == None
  {
    EdgeTriggeredOutput(strict, fallback, reset, es);
  }

  /** A timer that fires after a round arbitrates over the completed delayed values alone: the
      immediate values of the round are gone. */
  lemma FiringAfterRound(s: State, round: Event, timer: Event)
    requires round.Execute? && timer.Fire? && Enabled(s, round) && Enabled(Apply(s, round), timer)
    ensures var r := Apply(s, round);
            ExecutionValue(r, timer) == Arbitrated(s.strict, s.fallback,
              set id | id in r.delayed && (r.delayed[id].completed || id == timer.id) :: r.delayed[id].value)
  {
    var r := Apply(s, round);
    var c := Completed(r, timer.id);
    var fed := set id | id in r.delayed && (r.delayed[id].completed || id == timer.id) :: r.delayed[id].value;
    forall v ensures v in Fed(c) <==> v in fed {
      if v in Fed(c) {
        var id :| id in c.delayed && c.delayed[id].completed && c.delayed[id].value == v;
        assert r.delayed[id].value == v;
      }
      if v in fed {
        var id :| id in r.delayed && (r.delayed[id].completed || id == timer.id) && r.delayed[id].value == v;
        assert c.delayed[id].value == v && c.delayed[id].completed;
      }
    }
    assert Fed(c) == fed;
  }

  // ----- what a round arbitrates over -----

  function ImmediateValue(e: Event): seq<nat> {
    if e.AddValue? && e.id == 0 && e.value.Some? then [e.value.value] else []
  }

  /** The immediate values added since the last round. */
  function AddedSinceRound(es: seq<Event>): seq<nat> {
    if es == [] || es[|es| - 1].Execute? then []
    else AddedSinceRound(es[..|es| - 1]) + ImmediateValue(es[|es| - 1])
  }

  /** ... and since the last execution, be it a round or a timer firing. */
  function AddedSinceExecution(es: seq<Event>): seq<nat> {
    if es == [] || IsExecution(es[|es| - 1]) then []
    else AddedSinceExecution(es[..|es| - 1]) + ImmediateValue(es[|es| - 1])
  }

  /** Since the last round a timer has fired when a value had already been added. */
  predicate TimerCutIn(es: seq<Event>) {
    es != [] && !es[|es| - 1].Execute? &&
    (TimerCutIn(es[..|es| - 1]) || (es[|es| - 1].Fire? && AddedSinceRound(es[..|es| - 1]) != []))
  }

  lemma {:induction false} ValuesAreAdded(strict: bool, fallback: nat, reset: nat, es: seq<Event>)
    requires ValidRun(Initial(strict, fallback, reset), es)
    ensures After(Initial(strict, fallback, reset), es).values == AddedSinceExecution(es)
  {
    if es != [] { ValuesAreAdded(strict, fallback, reset, es[..|es| - 1]); }
  }

  lemma {:induction false} CutInLosesValues(es: seq<Event>)
    ensures |AddedSinceExecution(es)| <= |AddedSinceRound(es)|
    ensures TimerCutIn(es) ==> |AddedSinceExecution(es)| < |AddedSinceRound(es)|
    ensures !TimerCutIn(es) ==> AddedSinceExecution(es) == AddedSinceRound(es)
  {
    if es != [] { CutInLosesValues(es[..|es| - 1]); }
  }

  /** A round arbitrates over the immediate values added since the last execution, and the
      completed delayed ones. That is all that was added since the last round exactly if no timer
      fired in between after the first value had been added: such a firing loses it. */
  lemma RoundArbitratesExactly(strict: bool, fallback: nat, reset: nat, es: seq<Event>)
    requires ValidRun(Initial(strict, fallback, reset), es) && es != [] && es[|es| - 1].Execute?
    ensures var front, e := es[..|es| - 1], es[|es| - 1];
            var p := Prepared(After(Initial(strict, fallback, reset), front), e.created, e.nextTimer);
            && After(Initial(strict, fallback, reset), es).last
                 == Arbitrated(p.strict, p.fallback, Members(AddedSinceExecution(front)) + FedBy(p, p.delayed.Keys))
            && (p.values == AddedSinceRound(front) <==> !TimerCutIn(front))
  {
    var front := es[..|es| - 1];
    ValuesAreAdded(strict, fallback, reset, front);
    CutInLosesValues(front);
  }

  // ----- both happen -----

  /** Arbitrating the reset value right at the start sends nothing: the device holds no value while
      an action that always sends would have given it this one. */
  lemma ResetValueIsNotSent(strict: bool, fallback: nat, reset: nat) returns (es: seq<Event>)
    ensures var s := Initial(strict, fallback, reset);
            ValidRun(s, es) && After(s, es).device == None && AlwaysSend(s, es) == Some(reset)
  {
    var s := Initial(strict, fallback, reset);
    var add, round := AddValue(0, Some(reset)), Event.Execute(map[], 1);
    Extend(s, [], add);
    assert [] + [add] == [add];
    var s' := After(s, [add]);
    RoundWithoutEntries(s', round);
    ArbitratedIs(strict, fallback, Members([reset]), reset);
    assert Value(Prepared(s', map[], 1)) == reset;
    Extend(s, [add], round);
    es := [add] + [round];
    SendsLast(s, [add], round);
  }

  lemma SendsLast(s: State, es: seq<Event>, e: Event)
    requires ValidRun(s, es) && Enabled(After(s, es), e) && IsExecution(e) && ValidRun(s, es + [e])
    ensures AlwaysSend(s, es + [e]) == Some(ExecutionValue(After(s, es), e))
  {
    assert (es + [e])[..|es|] == es;
  }

  lemma RoundWithoutEntries(s: State, round: Event)
    requires s.delayed == map[] && s.proposed == {} && s.live == {} && s.nextTimer > 0
    requires round == Event.Execute(map[], s.nextTimer)
    ensures Enabled(s, round) && Prepared(s, map[], s.nextTimer) == s && Fed(s) == Members(s.values)
  {
    var r := Swept(s, {});
    assert s.delayed.Keys == {} && Waiting(r) == {};
    assert r == s && Started(s, map[]) == s;
  }

  /** One entry is proposed, and the round starts its timer. */
  lemma TimerStarted(s: State, delay: nat)
    requires s.delayed == map[] && s.proposed == {} && s.live == {} && s.nextTimer == 1
    ensures var p := Proposed(s, 1, Delayed(false, 0, delay, 0));
            var round := Event.Execute(map[1 := 1], 2);
            && Enabled(p, round)
            && var r := Apply(p, round); (1, 1) in r.live && 1 in r.delayed && r.values == []
  {
    var p := Proposed(s, 1, Delayed(false, 0, delay, 0));
    var swept := Swept(p, {1});
    assert p.delayed.Keys == {1};
    assert swept.delayed == p.delayed && Waiting(swept) == {1};
    assert (1, 1) in TimersOf(map[1 := 1]);
  }

  /** A timer can cut in between a value and its round. */
  lemma TimerCutsIn(strict: bool, fallback: nat, reset: nat, delay: nat, value: nat) returns (es: seq<Event>)
    ensures var s := Initial(strict, fallback, reset);
            ValidRun(s, es) && TimerCutIn(es) && AddedSinceRound(es) == [value] && After(s, es).values == []
  {
    var s := Initial(strict, fallback, reset);
    var propose, round := Propose(1, Delayed(false, 0, delay, 0)), Event.Execute(map[1 := 1], 2);
    var add, fire := AddValue(0, Some(value)), Fire(1, 1);
    TimerStarted(s, delay);
    Extend(s, [], propose);
    Extend(s, [propose], round);
    var started := [propose] + [round];
    Extend(s, started, add);
    Extend(s, started + [add], fire);
    es := started + [add] + [fire];
    AddedThenFired(started, add, fire, value);
  }

  lemma AddedThenFired(es: seq<Event>, add: Event, fire: Event, value: nat)
    requires es != [] && es[|es| - 1].Execute? && add == AddValue(0, Some(value)) && fire.Fire?
    ensures var run := es + [add] + [fire]; AddedSinceRound(run) == [value] && TimerCutIn(run)
  {
    var added := es + [add];
    assert added[..|es|] == es && (added + [fire])[..|added|] == added;
    assert AddedSinceRound(added) == [value];
  }
}
