/**
 What each subscriber of action values is told, event by event: the values it or an earlier
 listener asked for, and nothing else.
 */
module Delivery {
  import opened Options
  import opened ActionObserver

  /** Listener l or one served before it has subscribed to the action. */
  ghost predicate AskedFor(subs: map<nat, seq<string>>, l: nat, a: string) {
    exists k :: k in subs && k <= l && a in subs[k]
  }

  // ----- one event -----

  /** A delivery tells a listener the delivered value of every action that it or an earlier listener
      has asked for, and leaves everything else it has been told as it was. */
  lemma DeliveryTellsExactly(s: State, i: nat, l: nat, a: string)
    requires s.subs.Keys == s.views.Keys && i < |s.flight| && l in s.views
    ensures var s' := Apply(s, Deliver(i));
            && l in s'.views
            && Lookup(s'.views[l], a) ==
                 if a in s.flight[i] && AskedFor(s.subs, l, a) then Some(s.flight[i][a]) else Lookup(s.views[l], a)
  {}

  /** A new listener is told the current values of the actions it subscribes to, and no others; a
      listener that is known already is told nothing, and its subscription stays. */
  lemma SubscriptionTellsExactly(s: State, k: nat, names: seq<string>, l: nat, a: string)
    requires s.subs.Keys == s.views.Keys
    ensures var s' := Apply(s, Subscribe(k, names));
            && s'.subs.Keys == s'.views.Keys == s.views.Keys + {k}
            && (l in s.views ==> s'.views[l] == s.views[l] && s'.subs[l] == s.subs[l])
            && (k !in s.views ==>
                  s'.subs[k] == names && Lookup(s'.views[k], a) == if a in names then Lookup(s.all, a) else None)
  {}

  /** Setting, draining and unsubscribing tell nobody anything. */
  lemma OtherEventsTellNothing(s: State, e: Event, l: nat)
    requires Enabled(s, e) && !e.Deliver? && !e.Subscribe?
    ensures var s' := Apply(s, e);
            && (l in s'.views <==> l in s.views && e != Unsubscribe(l))
            && (l in s'.subs <==> l in s.subs && e != Unsubscribe(l))
            && (l in s'.views ==> s'.views[l] == s.views[l])
            && (l in s'.subs ==> s'.subs[l] == s.subs[l])
  {}

  // ----- whole runs, told from the events -----

  /** What a listener has subscribed to: the list of its first subscription since it unsubscribed. */
  function SubscribedTo(es: seq<Event>, l: nat): Option<seq<string>> {
    if es == [] then None else
      var e, before := es[|es| - 1], SubscribedTo(es[..|es| - 1], l);
      if e == Unsubscribe(l) then None
      else if e.Subscribe? && e.listener == l && before.None? then Some(e.actions)
      else before
  }

  /** The value set last. */
  function LastSet(es: seq<Event>, a: string): Option<string> {
    if es == [] then None else
      var e := es[|es| - 1];
      if e.SetValue? && e.name == a then Some(e.value) else LastSet(es[..|es| - 1], a)
  }

  /** The value set last since the pending values were taken away. */
  function SetSinceDrain(es: seq<Event>, a: string): Option<string> {
    if es == [] || es[|es| - 1].Drain? then None else
      var e := es[|es| - 1];
      if e.SetValue? && e.name == a then Some(e.value) else SetSinceDrain(es[..|es| - 1], a)
  }

  /** Listener l or one served before it had subscribed to the action. */
  ghost predicate Wanted(es: seq<Event>, l: nat, a: string) {
    exists k: nat :: k <= l && SubscribedTo(es, k).Some? && a in SubscribedTo(es, k).value
  }

  /** The value a listener has been told last since it subscribed. */
  ghost function LastTold(es: seq<Event>, l: nat, a: string): Option<string>
    requires ValidRun(INITIAL, es)
  {
    if es == [] then None else
      var front, e := es[..|es| - 1], es[|es| - 1];
      if e == Unsubscribe(l) then None
      else if e.Subscribe? && e.listener == l && SubscribedTo(front, l).None? then
        if a in e.actions then LastSet(front, a) else None
      else if e.Deliver? && SubscribedTo(front, l).Some? && Wanted(front, l, a) && a in Delivered(front, e) then
        Some(Delivered(front, e)[a])
      else LastTold(front, l, a)
  }

  ghost function Delivered(front: seq<Event>, e: Event): Values
    requires ValidRun(INITIAL, front) && Enabled(After(INITIAL, front), e) && e.Deliver?
  {
    After(INITIAL, front).flight[e.i]
  }

  /** Over any run the subscriptions and the values are those of the events. */
  lemma {:induction false} SubscriptionsFollowEvents(es: seq<Event>, l: nat)
    requires ValidRun(INITIAL, es)
    ensures var s := After(INITIAL, es);
            && s.subs.Keys == s.views.Keys
            && (l in s.subs <==> SubscribedTo(es, l).Some?)
            && (l in s.subs ==> s.subs[l] == SubscribedTo(es, l).value)
  {
    if es != [] {
      var front, e := es[..|es| - 1], es[|es| - 1];
      var s := After(INITIAL, front);
      SubscriptionsFollowEvents(front, l);
      match e
      case Subscribe(k, names) => SubscriptionTellsExactly(s, k, names, l, "");
      case Deliver(i) =>
      case _ =>
        OtherEventsTellNothing(s, e, l);
        assert Apply(s, e).subs.Keys == Apply(s, e).views.Keys;
    }
  }

  lemma {:induction false} ValuesFollowEvents(es: seq<Event>, a: string)
    requires ValidRun(INITIAL, es)
    ensures Lookup(After(INITIAL, es).all, a) == LastSet(es, a)
    ensures Lookup(After(INITIAL, es).pending, a) == SetSinceDrain(es, a)
  {
    if es != [] { ValuesFollowEvents(es[..|es| - 1], a); }
  }

  lemma WantedIsAskedFor(es: seq<Event>, l: nat, a: string)
    requires ValidRun(INITIAL, es)
    ensures Wanted(es, l, a) <==> AskedFor(After(INITIAL, es).subs, l, a)
  {
    forall k: nat { SubscriptionsFollowEvents(es, k); }
  }

  /** Over any run, with any number of flushes in flight and in any order of delivery, a subscriber
      holds exactly what it has been told: of an action, the value at its subscription or the one
      delivered last while it or an earlier listener wanted it. */
  lemma {:induction false} ViewsFollowEvents(es: seq<Event>, l: nat, a: string)
    requires ValidRun(INITIAL, es) && l in After(INITIAL, es).views
    ensures Lookup(After(INITIAL, es).views[l], a) == LastTold(es, l, a)
  {
    var front, e := es[..|es| - 1], es[|es| - 1];
    var s := After(INITIAL, front);
    SubscriptionsFollowEvents(front, l);
    if l in s.views { ViewsFollowEvents(front, l, a); }
    match e
    case Deliver(i) =>
      WantedIsAskedFor(front, l, a);
      DeliveryTellsExactly(s, i, l, a);
    case Subscribe(k, names) =>
      ValuesFollowEvents(front, a);
      SubscriptionTellsExactly(s, k, names, l, a);
    case _ => OtherEventsTellNothing(s, e, l);
  }

  // ----- nobody is told what was not asked for or not decided -----

  /** The listener has been told about the action, since it subscribed, when it or an earlier one
      wanted it. */
  ghost predicate WantedWhenTold(es: seq<Event>, l: nat, a: string) {
    es != [] &&
    (var front, e := es[..|es| - 1], es[|es| - 1];
     e != Unsubscribe(l) &&
     (WantedWhenTold(front, l, a) || ((e.Deliver? || (e.Subscribe? && e.listener == l)) && Wanted(es, l, a))))
  }

  /** Whatever a subscriber holds, it or an earlier listener had asked for when it was told. */
  lemma {:induction false} ToldWhatWasWanted(es: seq<Event>, l: nat, a: string)
    requires ValidRun(INITIAL, es) && LastTold(es, l, a).Some?
    ensures WantedWhenTold(es, l, a)
  {
    var front, e := es[..|es| - 1], es[|es| - 1];
    if e.Subscribe? && e.listener == l && SubscribedTo(front, l).None? {
      assert SubscribedTo(es, l) == Some(e.actions);
    } else if e.Deliver? && SubscribedTo(front, l).Some? && Wanted(front, l, a) && a in Delivered(front, e) {
      StillWanted(es, l, a);
    } else {
      ToldWhatWasWanted(front, l, a);
    }
  }

  lemma StillWanted(es: seq<Event>, l: nat, a: string)
    requires es != [] && es[|es| - 1].Deliver? && Wanted(es[..|es| - 1], l, a)
    ensures Wanted(es, l, a)
  {
    var k: nat :| k <= l && SubscribedTo(es[..|es| - 1], k).Some? && a in SubscribedTo(es[..|es| - 1], k).value;
    assert SubscribedTo(es, k) == SubscribedTo(es[..|es| - 1], k);
  }

  ghost predicate WasSet(es: seq<Event>, a: string, v: string) { SetValue(a, v) in es }

  lemma {:induction false} LastSetWasSet(es: seq<Event>, a: string)
    ensures LastSet(es, a).Some? ==> WasSet(es, a, LastSet(es, a).value)
    ensures SetSinceDrain(es, a).Some? ==> WasSet(es, a, SetSinceDrain(es, a).value)
  {
    if es != [] {
      LastSetWasSet(es[..|es| - 1], a);
      assert es == es[..|es| - 1] + [es[|es| - 1]];
    }
  }

  lemma {:induction false} FlightWasSet(es: seq<Event>, i: nat, a: string)
    requires ValidRun(INITIAL, es) && i < |After(INITIAL, es).flight| && a in After(INITIAL, es).flight[i]
    ensures WasSet(es, a, After(INITIAL, es).flight[i][a])
  {
    var front, e := es[..|es| - 1], es[|es| - 1];
    var s := After(INITIAL, front);
    assert es == front + [e];
    if e.Drain? && s.pending != map[] && i == |s.flight| {
      ValuesFollowEvents(front, a);
      LastSetWasSet(front, a);
    } else {
      FlightWasSet(front, if e.Deliver? && i >= e.i then i + 1 else i, a);
    }
  }

  /** Nobody is told a value that has not been decided. */
  lemma {:induction false} ToldWhatWasSet(es: seq<Event>, l: nat, a: string)
    requires ValidRun(INITIAL, es) && LastTold(es, l, a).Some?
    ensures WasSet(es, a, LastTold(es, l, a).value)
  {
    var front, e := es[..|es| - 1], es[|es| - 1];
    assert es == front + [e];
    if e.Subscribe? && e.listener == l && SubscribedTo(front, l).None? {
      LastSetWasSet(front, a);
    } else if e.Deliver? && SubscribedTo(front, l).Some? && Wanted(front, l, a) && a in Delivered(front, e) {
      FlightWasSet(front, e.i, a);
    } else {
      ToldWhatWasSet(front, l, a);
    }
  }
}
