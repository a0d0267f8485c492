/**
 Distribution of action values. New values are collected in a pending map and in a full map; a
 flush takes the pending map away under one lock and delivers it under another; a new listener
 gets a snapshot of the full map. Each lock section is one atomic step.
 */
module ActionObserver {
  import opened Options
  import opened Sets

  type Values = map<string, string>

  datatype State = State(
    subs: map<nat, seq<string>>,   // the actions each listener subscribed to
    views: map<nat, Values>,       // what each listener has been told, later values on top
    pending: Values,
    all: Values,
    flight: seq<Values>)           // drained but not yet delivered, in the order drained

  datatype Event =
    | SetValue(name: string, value: string)
    | Drain
    | Deliver(i: nat)
    | Subscribe(listener: nat, actions: seq<string>)
    | Unsubscribe(listener: nat)

  // ----- steps -----

  function Selected(names: seq<string>, values: Values): Values {
    map a | a in values && a in names :: values[a]
  }

  predicate WantedBy(subs: map<nat, seq<string>>, ls: set<nat>, a: string) {
    exists l | l in ls :: l in subs && a in subs[l]
  }

  /** What one delivery has collected for the listeners `ls`. */
  function Collected(subs: map<nat, seq<string>>, cache: Values, ls: set<nat>): Values {
    map a | a in cache && WantedBy(subs, ls, a) :: cache[a]
  }

  /** Listener l is sent the changes its own subscription selects and those of every listener
      served before it. */
  function ToldTo(s: State, cache: Values, l: nat): Values
    requires l in s.views
  {
    s.views[l] + Collected(s.subs, cache, UpTo(s.views.Keys, l))
  }

  function Told(s: State, cache: Values): State {
    s.(views := map l | l in s.views :: ToldTo(s, cache, l))
  }

  function Drained(s: State): State {
    if s.pending == map[] then s else s.(flight := s.flight + [s.pending], pending := map[])
  }

  function Subscribed(s: State, l: nat, names: seq<string>): State {
    if l in s.subs then s else s.(subs := s.subs[l := names], views := s.views[l := Selected(names, s.all)])
  }

  predicate Enabled(s: State, e: Event) { e.Deliver? ==> e.i < |s.flight| }

  function Apply(s: State, e: Event): State
    requires Enabled(s, e)
  {
    match e
    case SetValue(n, v) => s.(pending := s.pending[n := v], all := s.all[n := v])
    case Drain => Drained(s)
    case Deliver(i) => Told(s, s.flight[i]).(flight := s.flight[..i] + s.flight[i + 1..])
    case Subscribe(l, names) => Subscribed(s, l, names)
    case Unsubscribe(l) => s.(subs := s.subs - {l}, views := s.views - {l})
  }

  const INITIAL := State(map[], map[], map[], map[], [])

  predicate ValidRun(s: State, es: seq<Event>)
    decreases |es|, 0
  {
    es == [] ||
    (ValidRun(s, es[..|es| - 1]) && Enabled(After(s, es[..|es| - 1]), es[|es| - 1]))
  }

  function After(s: State, es: seq<Event>): State
    requires ValidRun(s, es)
    decreases |es|, 1
  {
    if es == [] then s else Apply(After(s, es[..|es| - 1]), es[|es| - 1])
  }

  /** Flushes are delivered in the order they were drained. With one flush at a time this holds
      by itself. */
  predicate InOrder(es: seq<Event>) { forall i | 0 <= i < |es| && es[i].Deliver? :: es[i].i == 0 }

  // ----- what a listener will have seen -----

  function Lookup(m: Values, a: string): Option<string> { if a in m then Some(m[a]) else None }

  /** The value of `a` once every cache in flight has been merged over `base`, in order. */
  function Seen(base: Option<string>, flight: seq<Values>, a: string): Option<string> {
    if flight == [] then base
    else if a in flight[|flight| - 1] then Some(flight[|flight| - 1][a])
    else Seen(base, flight[..|flight| - 1], a)
  }

  /** ... and the pending map after them. */
  function CaughtUp(s: State, base: Option<string>, a: string): Option<string> {
    if a in s.pending then Some(s.pending[a]) else Seen(base, s.flight, a)
  }

  /** Every difference between a view and the full map is made up by what is on its way. */
  ghost predicate Consistent(s: State) {
    && s.subs.Keys == s.views.Keys
    && (forall a :: CaughtUp(s, Lookup(s.all, a), a) == Lookup(s.all, a))
    && forall l, a | l in s.subs && a in s.subs[l] :: CaughtUp(s, Lookup(s.views[l], a), a) == Lookup(s.all, a)
  }

  lemma {:induction false} SeenConcat(base: Option<string>, x: seq<Values>, y: seq<Values>, a: string)
    ensures Seen(base, x + y, a) == Seen(Seen(base, x, a), y, a)
  {
    if y == [] {
      assert x + y == x;
    } else {
      assert (x + y)[..|x + y| - 1] == x + y[..|y| - 1];
      SeenConcat(base, x, y[..|y| - 1], a);
    }
  }

  lemma {:induction false} SeenFromNothing(base: Option<string>, flight: seq<Values>, a: string)
    ensures Seen(base, flight, a) == if Seen(None, flight, a).Some? then Seen(None, flight, a) else base
  {
    if flight != [] { SeenFromNothing(base, flight[..|flight| - 1], a); }
  }

  lemma ToldLookup(s: State, cache: Values, l: nat, a: string)
    requires s.subs.Keys == s.views.Keys && l in s.subs && a in s.subs[l]
    ensures Lookup(Told(s, cache).views[l], a) == if a in cache then Some(cache[a]) else Lookup(s.views[l], a)
  {}

  /** Delivering cache i loses a change of `a`: the cache overtakes an older one that holds a
      different value, and nothing newer is on its way. */
  predicate Overtaken(s: State, i: nat, a: string)
    requires i < |s.flight|
  {
    && a in s.flight[i] && a !in s.pending && Seen(None, s.flight[i + 1..], a).None?
    && Seen(None, s.flight[..i], a).Some? && Seen(None, s.flight[..i], a) != Some(s.flight[i][a])
  }

  /** Whatever a delivery has made of the base before: what is still on its way adds up to the same
      exactly if the action is not overtaken. */
  lemma DeliveredBase(s: State, i: nat, a: string, base: Option<string>, base': Option<string>)
    requires i < |s.flight| && CaughtUp(s, base, a) == Lookup(s.all, a)
    requires base' == (if a in s.flight[i] then Some(s.flight[i][a]) else base)
          || (base' == base == Lookup(s.all, a))
    ensures CaughtUp(Apply(s, Deliver(i)), base', a) == Lookup(s.all, a) <==> !Overtaken(s, i, a)
  {
    var pre, cache, post := s.flight[..i], s.flight[i], s.flight[i + 1..];
    assert s.flight == pre + [cache] + post;
    SeenConcat(base, pre + [cache], post, a);
    SeenConcat(base, pre, [cache], a);
    SeenConcat(base', pre, post, a);
    SeenFromNothing(base, pre, a);
    SeenFromNothing(base', pre, a);
    SeenFromNothing(Seen(base, pre + [cache], a), post, a);
    SeenFromNothing(Seen(base', pre, a), post, a);
    assert [cache][..0] == [];
  }

  lemma DeliveryIsExact(s: State, i: nat, l: nat, a: string)
    requires Consistent(s) && i < |s.flight| && l in s.subs && a in s.subs[l]
    ensures var s' := Apply(s, Deliver(i));
            CaughtUp(s', Lookup(s'.views[l], a), a) == Lookup(s'.all, a) <==> !Overtaken(s, i, a)
  {
    ToldLookup(s, s.flight[i], l, a);
    DeliveredBase(s, i, a, Lookup(s.views[l], a), Lookup(Apply(s, Deliver(i)).views[l], a));
  }

  /** ... and so does what a listener that subscribes later would start from. */
  lemma AllStaysCovered(s: State, i: nat, a: string)
    requires Consistent(s) && i < |s.flight|
    ensures var s' := Apply(s, Deliver(i));
            CaughtUp(s', Lookup(s'.all, a), a) == Lookup(s'.all, a) <==> !Overtaken(s, i, a)
  {
    assert CaughtUp(s, Lookup(s.all, a), a) == Lookup(s.all, a);
    DeliveredBase(s, i, a, Lookup(s.all, a), Lookup(s.all, a));
  }

  /** A delivery keeps a consistent state consistent exactly if it overtakes nothing, whether or not
      anybody has subscribed yet. */
  lemma DeliveryIsConsistentExactly(s: State, i: nat)
    requires Consistent(s) && i < |s.flight|
    ensures Consistent(Apply(s, Deliver(i))) <==> forall a :: !Overtaken(s, i, a)
  {
    var s' := Apply(s, Deliver(i));
    forall a ensures CaughtUp(s', Lookup(s'.all, a), a) == Lookup(s'.all, a) <==> !Overtaken(s, i, a) {
      AllStaysCovered(s, i, a);
    }
    forall l, a | l in s'.subs && a in s'.subs[l]
      ensures CaughtUp(s', Lookup(s'.views[l], a), a) == Lookup(s'.all, a) <==> !Overtaken(s, i, a)
    {
      DeliveryIsExact(s, i, l, a);
    }
  }

  lemma SubscriptionIsConsistent(s: State, l: nat, names: seq<string>)
    requires Consistent(s)
    ensures Consistent(Apply(s, Subscribe(l, names)))
  {}

  lemma SettingIsConsistent(s: State, n: string, v: string)
    requires Consistent(s)
    ensures Consistent(Apply(s, SetValue(n, v)))
  {
    var s' := Apply(s, SetValue(n, v));
    forall base, a
      ensures CaughtUp(s', base, a) == if a == n then Some(v) else CaughtUp(s, base, a)
      ensures Lookup(s'.all, a) == if a == n then Some(v) else Lookup(s.all, a)
    {}
  }

  lemma DrainIsConsistent(s: State)
    requires Consistent(s)
    ensures Consistent(Apply(s, Drain))
  {}

  predicate OvertakesSomething(s: State, e: Event, a: string)
    requires Enabled(s, e)
  {
    e.Deliver? && Overtaken(s, e.i, a)
  }

  lemma StepIsConsistentExactly(s: State, e: Event)
    requires Consistent(s) && Enabled(s, e)
    ensures Consistent(Apply(s, e)) <==> forall a :: !OvertakesSomething(s, e, a)
  {
    match e
    case SetValue(n, v) => SettingIsConsistent(s, n, v);
    case Drain => DrainIsConsistent(s);
    case Deliver(i) =>
      DeliveryIsConsistentExactly(s, i);
      assert forall a :: OvertakesSomething(s, e, a) == Overtaken(s, i, a);
    case Subscribe(l, names) => SubscriptionIsConsistent(s, l, names);
    case Unsubscribe(l) =>
      forall base, a ensures CaughtUp(Apply(s, e), base, a) == CaughtUp(s, base, a) {}
  }

  // ----- whole runs -----

  /** No delivery of the run overtakes anything. */
  ghost predicate NothingOvertaken(es: seq<Event>)
    requires ValidRun(INITIAL, es)
  {
    es == [] ||
    (var front, e := es[..|es| - 1], es[|es| - 1];
     NothingOvertaken(front) && forall a :: !OvertakesSomething(After(INITIAL, front), e, a))
  }

  ghost predicate AlwaysConsistent(es: seq<Event>)
    requires ValidRun(INITIAL, es)
  {
    Consistent(After(INITIAL, es)) && (es == [] || AlwaysConsistent(es[..|es| - 1]))
  }

  /** Snapshot plus deltas, exactly: over any interleaving, every view of every state, with what is
      in flight and then what is pending merged over it, agrees with the full map on the
      subscribed actions, and would for any later subscriber, if and only if no delivery of the
      run overtakes anything. */
  lemma {:induction false} SnapshotPlusDeltas(es: seq<Event>)
    requires ValidRun(INITIAL, es)
    ensures AlwaysConsistent(es) <==> NothingOvertaken(es)
  {
    if es != [] {
      var front, e := es[..|es| - 1], es[|es| - 1];
      SnapshotPlusDeltas(front);
      if AlwaysConsistent(front) {
        assert Consistent(After(INITIAL, front));
        StepIsConsistentExactly(After(INITIAL, front), e);
      }
    }
  }

  /** Delivering in the order of draining overtakes nothing, so one flush at a time is safe. */
  lemma {:induction false} InOrderOvertakesNothing(es: seq<Event>)
    requires ValidRun(INITIAL, es) && InOrder(es)
    ensures NothingOvertaken(es)
  {
    if es != [] {
      var front, e := es[..|es| - 1], es[|es| - 1];
      InOrderOvertakesNothing(front);
      forall a ensures !OvertakesSomething(After(INITIAL, front), e, a) {
        assert e.Deliver? ==> e.i == 0;
      }
    }
  }

  /** In particular a view that differs will be corrected, and with nothing on its way every view
      is the full map. */
  lemma ViewsAreCurrent(es: seq<Event>, l: nat, a: string)
    requires ValidRun(INITIAL, es) && NothingOvertaken(es)
    requires var s := After(INITIAL, es); l in s.subs && a in s.subs[l]
    ensures var s := After(INITIAL, es);
            && s.subs.Keys == s.views.Keys
            && (Lookup(s.views[l], a) != Lookup(s.all, a) ==>
                  a in s.pending || exists i | 0 <= i < |s.flight| :: a in s.flight[i])
            && (s.pending == map[] && s.flight == [] ==> Lookup(s.views[l], a) == Lookup(s.all, a))
  {
    var s := After(INITIAL, es);
    SnapshotPlusDeltas(es);
    assert CaughtUp(s, Lookup(s.views[l], a), a) == Lookup(s.all, a);
    if a !in s.pending && Lookup(s.views[l], a) != Lookup(s.all, a) {
      SeenComesFrom(Lookup(s.views[l], a), s.flight, a);
    }
  }

  lemma {:induction false} SeenComesFrom(base: Option<string>, flight: seq<Values>, a: string)
    requires Seen(base, flight, a) != base
    ensures exists i | 0 <= i < |flight| :: a in flight[i]
  {
    if a !in flight[|flight| - 1] {
      SeenComesFrom(base, flight[..|flight| - 1], a);
      var i :| 0 <= i < |flight| - 1 && a in flight[..|flight| - 1][i];
      assert a in flight[i];
    }
  }

  const OLDER := map["freq" := "7"]
  const NEWER := map["freq" := "9"]

  /** Two flushes in flight for one listener. */
  lemma TwoFlushes() returns (es: seq<Event>)
    ensures ValidRun(INITIAL, es)
    ensures After(INITIAL, es) == State(map[1 := ["freq"]], map[1 := map[]], map[], NEWER, [OLDER, NEWER])
  {
    es := [];
    Extend(es, Subscribe(1, ["freq"]));
    es := es + [Subscribe(1, ["freq"])];
    Extend(es, SetValue("freq", "7"));
    es := es + [SetValue("freq", "7")];
    assert After(INITIAL, es).pending == OLDER && After(INITIAL, es).flight == [] && "freq" in OLDER;
    Extend(es, Drain);
    es := es + [Drain];
    assert After(INITIAL, es).flight == [OLDER] && After(INITIAL, es).pending == map[];
    Extend(es, SetValue("freq", "9"));
    es := es + [SetValue("freq", "9")];
    assert After(INITIAL, es).pending == NEWER && "freq" in NEWER;
    Extend(es, Drain);
    es := es + [Drain];
    assert After(INITIAL, es).flight == [OLDER, NEWER];
    assert After(INITIAL, es).all == NEWER;
    assert After(INITIAL, es).subs == map[1 := ["freq"]];
    assert Selected(["freq"], map[]) == map[];
  }

  /** Two deliveries in the wrong order. */
  lemma WrongOrder(s: State)
    requires s == State(map[1 := ["freq"]], map[1 := map[]], map[], NEWER, [OLDER, NEWER])
    ensures var s1 := Apply(s, Deliver(1));
            s1.flight == [OLDER] &&
            var s2 := Apply(s1, Deliver(0));
            s2.flight == [] && s2.subs == s.subs && s2.views.Keys == {1} && Lookup(s2.views[1], "freq") == Some("7")
  {
    var s1 := Apply(s, Deliver(1));
    assert s1.flight == [OLDER] && s1.views.Keys == {1} && s1.subs == s.subs;
    assert 1 in s1.subs && "freq" in s1.subs[1];
    ToldLookup(s1, OLDER, 1, "freq");
  }

  /** Out of order it fails: two flushes, the later one delivered first, leave a stale view with
      nothing on its way. */
  lemma OvertakingLeavesStaleView() returns (es: seq<Event>)
    ensures ValidRun(INITIAL, es)
    ensures var s := After(INITIAL, es);
            && s.pending == map[] && s.flight == []
            && 1 in s.subs && "freq" in s.subs[1] && 1 in s.views
            && Lookup(s.views[1], "freq") == Some("7") && Lookup(s.all, "freq") == Some("9")
  {
    es := TwoFlushes();
    WrongOrder(After(INITIAL, es));
    Extend(es, Deliver(1));
    es := es + [Deliver(1)];
    Extend(es, Deliver(0));
    es := es + [Deliver(0)];
  }

  lemma Extend(es: seq<Event>, e: Event)
    requires ValidRun(INITIAL, es) && Enabled(After(INITIAL, es), e)
    ensures ValidRun(INITIAL, es + [e]) && After(INITIAL, es + [e]) == Apply(After(INITIAL, es), e)
  {}

  // ----- the observer -----

  class ThermalObserver {
    var actionListeners: set<nat>
    var callbackActionMap: map<nat, seq<string>>
    var actionMap: Values
    var allActionMap: Values
    // what the listeners make of the calls they get
    var views: map<nat, Values>
    ghost var flight: seq<Values>

    ghost predicate Valid()
      reads this
    {
      actionListeners == callbackActionMap.Keys == views.Keys
    }

    ghost function Snapshot(): State
      reads this
    {
      State(callbackActionMap, views, actionMap, allActionMap, flight)
    }

    constructor ()
      ensures Valid() && Snapshot() == INITIAL
    {
      actionListeners, callbackActionMap, actionMap, allActionMap, views, flight := {}, map[], map[], map[], map[], [];
    }

    method OnThermalActionChanged(listener: nat, changes: Values)
      requires listener in views
      modifies this`views
      ensures views == old(views)[listener := old(views)[listener] + changes]
    {
      views := views[listener := views[listener] + changes];
    }

    method SetDecisionValue(actionName: string, actionValue: string)
      requires Valid()
      modifies this`actionMap, this`allActionMap
      ensures Valid() && Snapshot() == Apply(old(Snapshot()), SetValue(actionName, actionValue))
    {
      actionMap := actionMap[actionName := actionValue];
      allActionMap := allActionMap[actionName := actionValue];
    }

    method SubscribeThermalActionCallback(actionList: seq<string>, callback: nat)
      requires Valid()
      modifies this`actionListeners, this`callbackActionMap, this`views
      ensures Valid() && Snapshot() == Apply(old(Snapshot()), Subscribe(callback, actionList))
    {
      if callback in actionListeners {
        return;
      }
      actionListeners := actionListeners + {callback};
      callbackActionMap := callbackActionMap[callback := actionList];
      var actionCbMap := CurrentValues(actionList);
      views := views[callback := map[]];
      OnThermalActionChanged(callback, actionCbMap);
      MergedOverNothing(old(views), callback, actionCbMap);
      KeysOfUpdate(old(views), callback, actionCbMap);
      KeysOfUpdate(old(callbackActionMap), callback, actionList);
    }

    method CurrentValues(actionList: seq<string>) returns (actionCbMap: Values)
      ensures actionCbMap == Selected(actionList, allActionMap)
    {
      actionCbMap := DecisionActionValue(actionList, map[], allActionMap);
      PlusNothing(Selected(actionList, allActionMap));
    }

    method UnSubscribeThermalActionCallback(callback: nat)
      requires Valid()
      modifies this`actionListeners, this`callbackActionMap, this`views
      ensures Valid() && Snapshot() == Apply(old(Snapshot()), Unsubscribe(callback))
    {
      callbackActionMap := callbackActionMap - {callback};
      actionListeners := actionListeners - {callback};
      views := views - {callback};
    }

    /** A whole flush, when nothing comes between its two lock sections; other flushes may be in
        flight. */
    method FindSubscribeActionValue()
      requires Valid()
      modifies this`actionMap, this`views, this`flight
      ensures Valid()
      ensures Snapshot() == var s := old(Snapshot());
                            if s.pending == map[] then s else Apply(Apply(s, Drain), Deliver(|s.flight|))
    {
      var actionCache := TakePending();
      if actionCache.None? {
        return;
      }
      DeliverCache(actionCache.value, |flight| - 1);
    }

    method TakePending() returns (actionCache: Option<Values>)
      requires Valid()
      modifies this`actionMap, this`flight
      ensures Valid() && Snapshot() == Apply(old(Snapshot()), Drain)
      ensures actionCache == if old(actionMap) == map[] then None else Some(old(actionMap))
    {
      if actionMap == map[] {
        return None;
      }
      actionCache := Some(actionMap);
      flight := flight + [actionMap];
      actionMap := map[];
    }

    method DeliverCache(actionCache: Values, ghost i: nat)
      requires Valid() && i < |flight| && flight[i] == actionCache
      modifies this`views, this`flight
      ensures Valid() && Snapshot() == Apply(old(Snapshot()), Deliver(i))
    {
      ServeAll(actionCache);
      flight := flight[..i] + flight[i + 1..];
    }

    /** Every listener in turn, with one map that accumulates what has been selected. */
    method ServeAll(actionCache: Values)
      requires Valid()
      modifies this`views
      ensures Snapshot() == Told(old(Snapshot()), actionCache)
    {
      ghost var s := Snapshot();
      var newActionCbMap: Values := map[];
      var todo := actionListeners;
      ghost var done: set<nat> := {};
      assert newActionCbMap == Collected(s.subs, actionCache, done);
      while todo != {}
        invariant Serving(s, actionCache, done, todo, newActionCbMap)
        decreases todo
      {
        ghost var smallest := Smallest(todo);
        var listener :| listener in todo && forall t | t in todo :: listener <= t;
        newActionCbMap := Serve(listener, newActionCbMap, actionCache, s, done, todo);
        todo, done := todo - {listener}, done + {listener};
      }
      assert done == s.views.Keys && views == Told(s, actionCache).views;
    }

    /** The listeners `done` have been told, those of `todo` not yet. */
    ghost predicate Serving(s: State, cache: Values, done: set<nat>, todo: set<nat>, collected: Values)
      reads this
    {
      && callbackActionMap == s.subs && s.subs.Keys == s.views.Keys == views.Keys
      && done + todo == s.views.Keys && done !! todo && InTurn(done, todo)
      && collected == Collected(s.subs, cache, done)
      && forall l | l in views :: views[l] == if l in done then ToldTo(s, cache, l) else s.views[l]
    }

    /** The body of the loop. */
    method Serve(listener: nat, newActionCbMap: Values, actionCache: Values, ghost s: State, ghost done: set<nat>,
                 ghost todo: set<nat>)
      returns (r: Values)
      requires Serving(s, actionCache, done, todo, newActionCbMap)
      requires listener in todo && forall t | t in todo :: listener <= t
      modifies this`views
      ensures Serving(s, actionCache, done + {listener}, todo - {listener}, r)
    {
      NextInTurn(done, todo, listener);
      r := newActionCbMap;
      if listener in callbackActionMap {
        r := DecisionActionValue(callbackActionMap[listener], r, actionCache);
        CollectedOne(s.subs, actionCache, done, listener);
      }
      OnThermalActionChanged(listener, r);
    }
  }

  /** Insert what the map holds for the listed actions; entries already there stay. */
  method DecisionActionValue(actionList: seq<string>, filteredMap: Values, actionMap: Values) returns (r: Values)
    ensures r == Selected(actionList, actionMap) + filteredMap
  {
    r := filteredMap;
    for i := 0 to |actionList|
      invariant r == Selected(actionList[..i], actionMap) + filteredMap
    {
      var action := actionList[i];
      var todo := actionMap.Keys;
      ghost var before := r;
      while todo != {}
        invariant todo <= actionMap.Keys
        invariant r == if action in actionMap && action !in todo && action !in before
                       then before[action := actionMap[action]] else before
        decreases todo
      {
        var name :| name in todo;
        if action == name && action !in r {
          r := r[action := actionMap[name]];
        }
        todo := todo - {name};
      }
      SelectedOne(actionList, i, actionMap, filteredMap);
    }
    assert actionList[..|actionList|] == actionList;
  }

  lemma PlusNothing(m: Values)
    ensures m + map[] == m && map[] + m == m
  {}

  lemma MergedOverNothing(m: map<nat, Values>, k: nat, changes: Values)
    ensures m[k := map[]][k := map[] + changes] == m[k := changes]
  {
    PlusNothing(changes);
  }

  lemma SelectedOne(names: seq<string>, i: nat, values: Values, under: Values)
    requires i < |names|
    ensures var r := Selected(names[..i], values) + under;
            Selected(names[..i + 1], values) + under ==
              if names[i] in values && names[i] !in r then r[names[i] := values[names[i]]] else r
  {}

  lemma CollectedOne(subs: map<nat, seq<string>>, cache: Values, done: set<nat>, l: nat)
    requires l in subs
    ensures Selected(subs[l], cache) + Collected(subs, cache, done) == Collected(subs, cache, done + {l})
  {}
}
