/**
 What each subscriber of temperatures is told, event by event: a type it or an earlier listener
 asked for, when its reading differs from the shared table, and nothing else.
 */
module TempDelivery {
  import opened Options
  import opened Sets
  import opened TempObserver

  /** What a listener has subscribed to: the list of its first subscription since it unsubscribed. */
  function SubscribedTo(es: seq<Event>, l: nat): Option<seq<string>> {
    if es == [] then None else
      var e, before := es[|es| - 1], SubscribedTo(es[..|es| - 1], l);
      if e == Unsubscribe(l) then None
      else if e.Subscribe? && e.listener == l && before.None? then Some(e.types)
      else before
  }

  /** Listener l or one served before it has subscribed to the type. */
  ghost predicate Wanted(es: seq<Event>, l: nat, t: string) {
    exists k: nat :: k <= l && SubscribedTo(es, k).Some? && t in SubscribedTo(es, k).value
  }

  ghost predicate WantedByAnyone(es: seq<Event>, t: string) { exists k: nat :: Wanted(es, k, t) }

  /** The shared table: the reading of the latest report at which anyone wanted the type. */
  ghost function Table(es: seq<Event>, t: string): int {
    if es == [] then 0 else
      var front, e := es[..|es| - 1], es[|es| - 1];
      if e.Notify? && WantedByAnyone(front, t) then At(e.report, t) else Table(front, t)
  }

  /** The reading a listener has been told last since it subscribed. */
  ghost function LastTold(es: seq<Event>, l: nat, t: string): Option<int> {
    if es == [] then None else
      var front, e := es[..|es| - 1], es[|es| - 1];
      if e == Unsubscribe(l) || (e.Subscribe? && e.listener == l && SubscribedTo(front, l).None?) then None
      else if e.Notify? && SubscribedTo(front, l).Some? && Wanted(front, l, t) && Table(front, t) != At(e.report, t)
      then Some(At(e.report, t))
      else LastTold(front, l, t)
  }

  /** The subscriptions of a state are those of the events. */
  ghost predicate Subscriptions(es: seq<Event>, s: State) {
    && s.subs.Keys == s.told.Keys
    && forall l: nat :: (l in s.subs <==> SubscribedTo(es, l).Some?)
                     && (l in s.subs ==> s.subs[l] == SubscribedTo(es, l).value)
  }

  lemma SubscriptionsStep(es: seq<Event>, e: Event, s: State, s': State)
    requires Subscriptions(es, s) && Step(s, e, s')
    ensures Subscriptions(es + [e], s')
  {
    assert (es + [e])[..|es|] == es;
    forall l: nat
      ensures (l in s'.subs <==> SubscribedTo(es + [e], l).Some?) &&
              (l in s'.subs ==> s'.subs[l] == SubscribedTo(es + [e], l).value)
    {
      assert l in s.subs <==> SubscribedTo(es, l).Some?;
    }
  }

  lemma {:induction false} SubscriptionsFollowEvents(states: seq<State>, es: seq<Event>)
    requires Run(states, es)
    ensures Subscriptions(es, states[|es|])
  {
    if es != [] {
      var n := |es| - 1;
      SubscriptionsFollowEvents(states[..n + 1], es[..n]);
      SubscriptionsStep(es[..n], es[n], states[n], states[n + 1]);
      assert es == es[..n] + [es[n]];
    }
  }

  lemma WantedIs(es: seq<Event>, s: State, l: nat, t: string)
    requires Subscriptions(es, s)
    ensures WantedBy(s.subs, UpTo(s.told.Keys, l), t) <==> Wanted(es, l, t)
    ensures WantedBy(s.subs, s.told.Keys, t) <==> WantedByAnyone(es, t)
  {
    if Wanted(es, l, t) {
      var k: nat :| k <= l && SubscribedTo(es, k).Some? && t in SubscribedTo(es, k).value;
      assert k in s.subs && k in UpTo(s.told.Keys, l);
    }
    if WantedByAnyone(es, t) {
      var j: nat :| Wanted(es, j, t);
      var k: nat :| k <= j && SubscribedTo(es, k).Some? && t in SubscribedTo(es, k).value;
      assert k in s.subs;
    }
    if WantedBy(s.subs, s.told.Keys, t) {
      var k :| k in s.told.Keys && k in s.subs && t in s.subs[k];
      assert Wanted(es, k, t);
    }
  }

  /** Over any run the shared table holds what the events say, and every subscriber has been told, of
      a type, the reading of the latest report that differed from the table while it or an earlier
      listener wanted it. */
  lemma {:induction false} ViewsFollowEvents(states: seq<State>, es: seq<Event>, l: nat, t: string)
    requires Run(states, es)
    ensures At(states[|es|].pre, t) == Table(es, t)
    ensures l in states[|es|].told ==> Entry(states[|es|].told[l], t) == LastTold(es, l, t)
  {
    if es != [] {
      var n := |es| - 1;
      ViewsFollowEvents(states[..n + 1], es[..n], l, t);
      SubscriptionsFollowEvents(states[..n + 1], es[..n]);
      assert l in states[n].subs <==> SubscribedTo(es[..n], l).Some?;
      WantedIs(es[..n], states[n], l, t);
      ViewsStep(es[..n], es[n], states[n], states[n + 1], l, t);
      assert es == es[..n] + [es[n]];
    }
  }

  lemma ViewsStep(es: seq<Event>, e: Event, s: State, s': State, l: nat, t: string)
    requires Subscriptions(es, s) && Step(s, e, s') && (l in s.subs <==> SubscribedTo(es, l).Some?)
    requires WantedBy(s.subs, UpTo(s.told.Keys, l), t) <==> Wanted(es, l, t)
    requires WantedBy(s.subs, s.told.Keys, t) <==> WantedByAnyone(es, t)
    requires At(s.pre, t) == Table(es, t) && (l in s.told ==> Entry(s.told[l], t) == LastTold(es, l, t))
    ensures At(s'.pre, t) == Table(es + [e], t)
    ensures l in s'.told ==> Entry(s'.told[l], t) == LastTold(es + [e], l, t)
  {
    assert (es + [e])[..|es|] == es;
  }
}
