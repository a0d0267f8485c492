/**
 From an action to its subscribers: every value the action decides on is handed to the observer,
 which distributes it. A view with nothing on its way holds the value arbitrated last.
 */
module Distribution {
  import opened Options
  import Action = ThermalAction
  import ActionRuns = ActionTheorems
  import Observer = ActionObserver

  /** One action and the observer of all. */
  datatype System = System(action: Action.State, observer: Observer.State)

  datatype Event = OfAction(a: Action.Event) | OfObserver(o: Observer.Event)

  const DIGITS := "0123456789"

  function Decimal(n: nat): string {
    if n < 10 then [DIGITS[n]] else Decimal(n / 10) + [DIGITS[n % 10]]
  }

  predicate IsNumeral(s: string) { s != "" && forall i | 0 <= i < |s| :: '0' <= s[i] <= '9' }

  /** The number a numeral stands for. */
  function NumberOf(s: string): nat
    requires s == "" || IsNumeral(s)
  {
    if s == "" then 0 else 10 * NumberOf(s[..|s| - 1]) + (s[|s| - 1] - '0') as nat
  }

  /** The text of a value is its numeral: it reads back as the value, and has no leading zero. */
  lemma {:induction false} DecimalReadsBack(n: nat)
    ensures IsNumeral(Decimal(n)) && NumberOf(Decimal(n)) == n
    ensures Decimal(n)[0] == '0' ==> n == 0
  {
    DigitsStandForThemselves();
    if n >= 10 {
      var front, last := Decimal(n / 10), DIGITS[n % 10];
      DecimalReadsBack(n / 10);
      assert Decimal(n)[..|Decimal(n)| - 1] == front;
    } else {
      assert Decimal(n)[..0] == "";
    }
  }

  lemma DigitsStandForThemselves()
    ensures forall d | 0 <= d < 10 :: '0' <= DIGITS[d] <= '9' && (DIGITS[d] - '0') as nat == d
  {}

  // ----- steps -----

  /** No one else decides on the value of this action. */
  ghost predicate Enabled(name: string, s: System, e: Event) {
    match e
    case OfAction(a) => Action.Enabled(s.action, a)
    case OfObserver(o) => Observer.Enabled(s.observer, o) && (o.SetValue? ==> o.name != name)
  }

  /** The call of the observer that an event of the action makes, if it decides on a new value. */
  ghost function Handed(name: string, s: Action.State, s': Action.State): seq<Observer.Event> {
    var ds := s'.decisions;
    if |ds| > |s.decisions| then [Observer.SetValue(name, Decimal(ds[|ds| - 1]))] else []
  }

  /** What an event means for the observer. */
  ghost function Observed(name: string, s: System, e: Event): seq<Observer.Event>
    requires Enabled(name, s, e)
  {
    match e
    case OfAction(a) => Handed(name, s.action, Action.Apply(s.action, a))
    case OfObserver(o) => [o]
  }

  ghost function Apply(name: string, s: System, e: Event): System
    requires Enabled(name, s, e)
  {
    var os := Observed(name, s, e);
    System(if e.OfAction? then Action.Apply(s.action, e.a) else s.action,
           if os == [] then s.observer else Observer.Apply(s.observer, os[0]))
  }

  function Initial(strict: bool, fallback: nat, reset: nat): System {
    System(Action.Initial(strict, fallback, reset), Observer.INITIAL)
  }

  ghost predicate ValidRun(name: string, s: System, es: seq<Event>)
    decreases |es|, 0
  {
    es == [] ||
    (ValidRun(name, s, es[..|es| - 1]) && Enabled(name, After(name, s, es[..|es| - 1]), es[|es| - 1]))
  }

  ghost function After(name: string, s: System, es: seq<Event>): System
    requires ValidRun(name, s, es)
    decreases |es|, 1
  {
    if es == [] then s else Apply(name, After(name, s, es[..|es| - 1]), es[|es| - 1])
  }

  // ----- the two halves of a run -----

  function ActionEvents(es: seq<Event>): seq<Action.Event> {
    if es == [] then []
    else ActionEvents(es[..|es| - 1]) + if es[|es| - 1].OfAction? then [es[|es| - 1].a] else []
  }

  ghost function ObserverEvents(name: string, s: System, es: seq<Event>): seq<Observer.Event>
    requires ValidRun(name, s, es)
  {
    if es == [] then []
    else
      var front := es[..|es| - 1];
      ObserverEvents(name, s, front) + Observed(name, After(name, s, front), es[|es| - 1])
  }

  lemma {:induction false} ActionHalf(name: string, s: System, es: seq<Event>)
    requires ValidRun(name, s, es)
    ensures ActionRuns.ValidRun(s.action, ActionEvents(es))
    ensures ActionRuns.After(s.action, ActionEvents(es)) == After(name, s, es).action
  {
    if es != [] {
      var front, e := es[..|es| - 1], es[|es| - 1];
      ActionHalf(name, s, front);
      if e.OfAction? {
        var acts := ActionEvents(es);
        assert acts[..|acts| - 1] == ActionEvents(front);
      } else {
        assert ActionEvents(es) == ActionEvents(front);
      }
    }
  }

  lemma {:induction false} ObserverHalf(name: string, s: System, es: seq<Event>)
    requires ValidRun(name, s, es) && s.observer == Observer.INITIAL
    ensures Observer.ValidRun(Observer.INITIAL, ObserverEvents(name, s, es))
    ensures Observer.After(Observer.INITIAL, ObserverEvents(name, s, es)) == After(name, s, es).observer
  {
    if es != [] {
      var front, e := es[..|es| - 1], es[|es| - 1];
      ObserverHalf(name, s, front);
      var os := Observed(name, After(name, s, front), e);
      if os == [] {
        assert ObserverEvents(name, s, es) == ObserverEvents(name, s, front);
      } else {
        Observer.Extend(ObserverEvents(name, s, front), os[0]);
        assert os == [os[0]];
      }
    }
  }

  // ----- both together -----

  /** The full map of the observer holds the value the device holds. */
  ghost predicate Joined(name: string, s: System) {
    s.action.device.Some? ==> Observer.Lookup(s.observer.all, name) == Some(Decimal(s.action.device.value))
  }

  /** An event of the action changes the device only by sending a value it also hands over, or by
      losing what the device held. */
  lemma DecidedIsSent(s: Action.State, e: Action.Event)
    requires Action.Enabled(s, e)
    ensures var s' := Action.Apply(s, e);
            if |s'.decisions| > |s.decisions| then s'.device == Some(s'.decisions[|s'.decisions| - 1])
            else s'.device == s.device || s'.device == None
  {}

  lemma StepKeepsJoined(name: string, s: System, e: Event)
    requires Joined(name, s) && Enabled(name, s, e)
    ensures Joined(name, Apply(name, s, e))
  {
    if e.OfAction? { DecidedIsSent(s.action, e.a); }
  }

  lemma {:induction false} RunKeepsJoined(name: string, strict: bool, fallback: nat, reset: nat, es: seq<Event>)
    requires ValidRun(name, Initial(strict, fallback, reset), es)
    ensures Joined(name, After(name, Initial(strict, fallback, reset), es))
  {
    if es != [] {
      var s, front := Initial(strict, fallback, reset), es[..|es| - 1];
      RunKeepsJoined(name, strict, fallback, reset, front);
      StepKeepsJoined(name, After(name, s, front), es[|es| - 1]);
    }
  }

  /** Nothing of this action waits to be delivered. */
  ghost predicate Quiet(name: string, s: Observer.State) {
    name !in s.pending && forall i | 0 <= i < |s.flight| :: name !in s.flight[i]
  }

  lemma {:induction false} NothingSeen(base: Option<string>, flight: seq<Observer.Values>, a: string)
    requires forall i | 0 <= i < |flight| :: a !in flight[i]
    ensures Observer.Seen(base, flight, a) == base
  {
    if flight != [] { NothingSeen(base, flight[..|flight| - 1], a); }
  }

  /** Over any run of rounds, timer firings, resets, flushes and subscriptions that overtakes nothing:
      a subscriber to the action, once nothing of it is on its way, has been told the value the
      last execution arbitrated. The one exception is an action that has arbitrated nothing but the
      reset value since it was reset, which then sends nothing. */
  lemma ViewsHoldTheLastDecision(name: string, strict: bool, fallback: nat, reset: nat, es: seq<Event>, l: nat)
    requires ValidRun(name, Initial(strict, fallback, reset), es)
    requires var s := Initial(strict, fallback, reset);
             && Observer.ValidRun(Observer.INITIAL, ObserverEvents(name, s, es))
             && Observer.NothingOvertaken(ObserverEvents(name, s, es))
             && ActionRuns.ValidRun(s.action, ActionEvents(es))
             && !ActionRuns.OnlyResetValue(s.action, ActionEvents(es))
    requires var o := After(name, Initial(strict, fallback, reset), es).observer;
             l in o.subs && name in o.subs[l] && Quiet(name, o)
    ensures var s := Initial(strict, fallback, reset);
            var o, sent := After(name, s, es).observer, ActionRuns.AlwaysSend(s.action, ActionEvents(es));
            l in o.views && sent.Some? && Observer.Lookup(o.views[l], name) == Some(Decimal(sent.value))
  {
    var s := Initial(strict, fallback, reset);
    var o := After(name, s, es).observer;
    ActionHalf(name, s, es);
    ObserverHalf(name, s, es);
    ActionRuns.EdgeTriggeredOutput(strict, fallback, reset, ActionEvents(es));
    RunKeepsJoined(name, strict, fallback, reset, es);
    Observer.SnapshotPlusDeltas(ObserverEvents(name, s, es));
    assert Observer.Consistent(o);
    assert Observer.CaughtUp(o, Observer.Lookup(o.views[l], name), name) == Observer.Lookup(o.all, name);
    NothingSeen(Observer.Lookup(o.views[l], name), o.flight, name);
  }
}
