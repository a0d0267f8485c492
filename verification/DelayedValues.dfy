/**
 What an action arbitrates over, told from the events of its run: the immediate values added since
 the last execution, and of every delayed entry whose timer has fired the value added last.
 */
module DelayedValues {
  import opened ThermalAction
  import opened ActionTheorems

  // ----- delayed entries, told from the events -----

  /** The id has been proposed since the last round. */
  function ProposedNow(es: seq<Event>, id: nat): bool {
    es != [] && !es[|es| - 1].Execute? &&
    ((es[|es| - 1].Propose? && es[|es| - 1].id == id) || ProposedNow(es[..|es| - 1], id))
  }

  /** The id has been proposed, and before every round since. */
  function Exists(es: seq<Event>, id: nat): bool {
    es != [] &&
    (var front, e := es[..|es| - 1], es[|es| - 1];
     if e.Execute? then ProposedNow(front, id) else (e.Propose? && e.id == id) || Exists(front, id))
  }

  /** The event makes a new entry. */
  predicate Begins(front: seq<Event>, e: Event, id: nat) { e.Propose? && e.id == id && !Exists(front, id) }

  /** The timer of the entry has fired. */
  function HasFired(es: seq<Event>, id: nat): bool {
    es != [] &&
    (var front, e := es[..|es| - 1], es[|es| - 1];
     !Begins(front, e, id) && ((e.Fire? && e.id == id) || HasFired(front, id)))
  }

  /** The value added last for the entry. */
  function ValueFor(es: seq<Event>, id: nat): nat {
    if es == [] then 0 else
      var front, e := es[..|es| - 1], es[|es| - 1];
      if Begins(front, e, id) then e.delay.value
      else if e.AddValue? && e.id == id && id > 0 && e.value.Some? && Exists(front, id) then e.value.value
      else ValueFor(front, id)
  }

  /** The delay it was proposed with first. */
  function DelayFor(es: seq<Event>, id: nat): nat {
    if es == [] then 0 else
      var front, e := es[..|es| - 1], es[|es| - 1];
      if Begins(front, e, id) then e.delay.delayTime else DelayFor(front, id)
  }

  lemma {:induction false} ProposedFollowEvents(s: State, es: seq<Event>, id: nat)
    requires s.proposed == {} && ValidRun(s, es)
    ensures id in After(s, es).proposed <==> ProposedNow(es, id)
  {
    if es != [] { ProposedFollowEvents(s, es[..|es| - 1], id); }
  }

  /** The entry of this id is what the events say. */
  ghost predicate EntryIs(s: State, es: seq<Event>, id: nat) {
    && (id in s.delayed <==> Exists(es, id))
    && (id in s.delayed ==>
          && s.delayed[id].completed == HasFired(es, id)
          && s.delayed[id].value == ValueFor(es, id)
          && s.delayed[id].delayTime == DelayFor(es, id))
  }

  /** A round keeps the proposed entries, apart from their timers. */
  lemma RoundKeepsEntries(s: State, e: Event, id: nat)
    requires e.Execute? && Enabled(s, e) && TimersOk(s)
    ensures var r := Apply(s, e);
            && (id in r.delayed <==> id in s.proposed)
            && (id in r.delayed ==>
                  id in s.delayed && r.delayed[id] == s.delayed[id].(timerId := r.delayed[id].timerId))
  {
    PreparedKeepsTimers(s, e.created, e.nextTimer);
  }

  lemma EntryStep(s: State, front: seq<Event>, e: Event, id: nat)
    requires TimersOk(s) && Enabled(s, e) && EntryIs(s, front, id) && (id in s.proposed <==> ProposedNow(front, id))
    ensures EntryIs(Apply(s, e), front + [e], id)
  {
    assert (front + [e])[..|front|] == front;
    if e.Execute? { RoundKeepsEntries(s, e, id); }
  }

  /** Over any run the entries are those the events say: proposed before every round since they began,
      with the value added last, and completed exactly once their timer has fired. */
  lemma {:induction false} EntriesFollowEvents(strict: bool, fallback: nat, reset: nat, es: seq<Event>, id: nat)
    requires ValidRun(Initial(strict, fallback, reset), es)
    ensures EntryIs(After(Initial(strict, fallback, reset), es), es, id)
  {
    if es != [] {
      var s, front := Initial(strict, fallback, reset), es[..|es| - 1];
      EntriesFollowEvents(strict, fallback, reset, front, id);
      assert TimersOk(s);
      RunKeepsTimers(s, front);
      ProposedFollowEvents(s, front, id);
      EntryStep(After(s, front), front, es[|es| - 1], id);
      assert es == front + [es[|es| - 1]];
    }
  }

  // ----- what an execution arbitrates over -----

  /** The timer of some entry has fired, and this is its value. */
  ghost predicate Held(es: seq<Event>, v: nat) {
    exists id: nat :: Exists(es, id) && HasFired(es, id) && ValueFor(es, id) == v
  }

  /** The execution at the end of the run has this value before it: an immediate value added since the
      execution before, or the value of an entry whose timer has fired. */
  ghost predicate Counts(es: seq<Event>, v: nat)
    requires es != []
  {
    v in AddedSinceExecution(es[..|es| - 1]) || Held(es, v)
  }

  lemma HeldExactly(strict: bool, fallback: nat, reset: nat, es: seq<Event>, v: nat)
    requires ValidRun(Initial(strict, fallback, reset), es)
    ensures var s := After(Initial(strict, fallback, reset), es);
            Held(es, v) <==> v in FedBy(s, s.delayed.Keys)
  {
    var s := After(Initial(strict, fallback, reset), es);
    if Held(es, v) {
      var id: nat :| Exists(es, id) && HasFired(es, id) && ValueFor(es, id) == v;
      EntriesFollowEvents(strict, fallback, reset, es, id);
    }
    if v in FedBy(s, s.delayed.Keys) {
      var id :| id in s.delayed && s.delayed[id].completed && s.delayed[id].value == v;
      EntriesFollowEvents(strict, fallback, reset, es, id);
    }
  }

  /** The state in which an execution arbitrates. */
  ghost function Arbitrating(s: State, e: Event): State
    requires Enabled(s, e) && IsExecution(e)
  {
    if e.Execute? then Prepared(s, e.created, e.nextTimer) else Completed(s, e.id)
  }

  /** It has the entries of the state after it. */
  lemma ArbitratesOver(s: State, e: Event)
    requires Enabled(s, e) && IsExecution(e)
    ensures var p, r := Arbitrating(s, e), Apply(s, e);
            && p.values == s.values && p.strict == s.strict && p.fallback == s.fallback
            && r.last == Value(p) && p.delayed == r.delayed
  {}

  lemma SameEntriesFeed(p: State, r: State)
    requires p.delayed == r.delayed
    ensures FedBy(p, p.delayed.Keys) == FedBy(r, r.delayed.Keys)
  {}

  lemma CountsExactly(strict: bool, fallback: nat, reset: nat, es: seq<Event>, v: nat)
    requires ValidRun(Initial(strict, fallback, reset), es) && es != [] && IsExecution(es[|es| - 1])
    ensures var t := After(Initial(strict, fallback, reset), es[..|es| - 1]);
            Counts(es, v) <==> v in Fed(Arbitrating(t, es[|es| - 1]))
  {
    var s, front, e := Initial(strict, fallback, reset), es[..|es| - 1], es[|es| - 1];
    var t := After(s, front);
    ValuesAreAdded(strict, fallback, reset, front);
    ArbitratesOver(t, e);
    SameEntriesFeed(Arbitrating(t, e), Apply(t, e));
    HeldExactly(strict, fallback, reset, es, v);
  }

  /** Over any run an execution ends with the smallest value it has before it if the action is strict,
      the greatest if it is not, and the fallback if it has none. In particular a delayed value
      counts from the firing of its timer on, and not before. */
  lemma ExecutionArbitratesExactly(strict: bool, fallback: nat, reset: nat, es: seq<Event>)
    requires ValidRun(Initial(strict, fallback, reset), es) && es != [] && IsExecution(es[|es| - 1])
    ensures var last := After(Initial(strict, fallback, reset), es).last;
            if exists v: nat :: Counts(es, v)
            then Counts(es, last) && forall v: nat | Counts(es, v) :: if strict then last <= v else v <= last
            else last == fallback
  {
    var s, front, e := Initial(strict, fallback, reset), es[..|es| - 1], es[|es| - 1];
    var t := After(s, front);
    SameArbitration(s, front);
    ArbitratesOver(t, e);
    forall v: nat ensures Counts(es, v) <==> v in Fed(Arbitrating(t, e)) {
      CountsExactly(strict, fallback, reset, es, v);
    }
    ArbitratedExactly(strict, fallback, Fed(Arbitrating(t, e)));
  }

  lemma ArbitratedExactly(strict: bool, fallback: nat, fed: set<nat>)
    ensures var r := Arbitrated(strict, fallback, fed);
            if exists v :: v in fed then r in fed && forall v | v in fed :: if strict then r <= v else v <= r
            else r == fallback
  {}

  lemma {:induction false} SameArbitration(s: State, es: seq<Event>)
    requires ValidRun(s, es)
    ensures After(s, es).strict == s.strict && After(s, es).fallback == s.fallback
  {
    if es != [] { SameArbitration(s, es[..|es| - 1]); }
  }
}
