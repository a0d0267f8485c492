/**
 Distribution of temperatures. One table of previous readings is shared by all listeners, and one
 map of changes accumulates while the listeners are served in order; still nobody misses a change.
 */
module TempObserver {
  import opened Options
  import opened Sets

  type Temps = map<string, int>

  function Entry(m: Temps, t: string): Option<int> { if t in m then Some(m[t]) else None }

  /** A reading; a sensor without an entry reads as 0. */
  function At(m: Temps, t: string): int { if t in m then m[t] else 0 }

  datatype State = State(
    subs: map<nat, seq<string>>,    // the types each listener subscribed to
    told: map<nat, Temps>,          // what each listener has been told, later values on top
    pre: Temps,                     // the readings last compared with
    base: map<nat, Temps>,          // history: `pre` when the listener subscribed
    since: map<nat, nat>,           // history: how many reports had been notified by then
    reports: seq<Temps>)            // history: the reports notified so far

  datatype Event = Notify(report: Temps) | Subscribe(listener: nat, types: seq<string>) | Unsubscribe(listener: nat)

  // ----- steps -----

  predicate WantedBy(subs: map<nat, seq<string>>, ls: set<nat>, t: string) {
    exists l | l in ls :: l in subs && t in subs[l]
  }

  predicate Changed(pre: Temps, report: Temps, t: string) { At(pre, t) != At(report, t) }

  /** Listener l is told the changed types that it or a listener before it asked for, and nothing
      else; the readings compared with become those of the report. */
  ghost predicate Notified(s: State, report: Temps, s': State) {
    if s.subs == map[] then s' == s
    else
      && s' == s.(told := s'.told, pre := s'.pre, reports := s.reports + [report])
      && s'.told.Keys == s.told.Keys
      && (forall l, t | l in s.told ::
            Entry(s'.told[l], t) ==
              if WantedBy(s.subs, UpTo(s.told.Keys, l), t) && Changed(s.pre, report, t) then Some(At(report, t))
              else Entry(s.told[l], t))
      && forall t :: At(s'.pre, t) == if WantedBy(s.subs, s.told.Keys, t) then At(report, t) else At(s.pre, t)
  }

  ghost predicate Step(s: State, e: Event, s': State) {
    match e
    case Notify(report) => Notified(s, report, s')
    case Subscribe(l, types) =>
      s' == if l in s.subs then s
            else s.(subs := s.subs[l := types], told := s.told[l := map[]], base := s.base[l := s.pre],
                    since := s.since[l := |s.reports|])
    case Unsubscribe(l) =>
      s' == s.(subs := s.subs - {l}, told := s.told - {l}, base := s.base - {l}, since := s.since - {l})
  }

  const INITIAL := State(map[], map[], map[], map[], map[], [])

  /** A run, with every state on its way. */
  ghost predicate Run(states: seq<State>, es: seq<Event>) {
    && |states| == |es| + 1 && states[0] == INITIAL
    && forall i | 0 <= i < |es| :: Step(states[i], es[i], states[i + 1])
  }

  // ----- nobody misses a change -----

  predicate Known(s: State, l: nat) { l in s.since && s.since[l] <= |s.reports| }

  /** The reports notified since the listener subscribed. */
  function Heard(s: State, l: nat): seq<Temps>
    requires Known(s, l)
  {
    s.reports[s.since[l]..]
  }

  ghost predicate SomeDiffers(base: Temps, heard: seq<Temps>, t: string) {
    exists i | 0 <= i < |heard| :: Changed(base, heard[i], t)
  }

  function Latest(base: Temps, heard: seq<Temps>, t: string): int {
    if heard == [] then At(base, t) else At(heard[|heard| - 1], t)
  }

  /** A subscribed type has been told exactly if some report since the subscription read it
      differently from the shared table at that time, and what was told last is the reading of
      the latest report. */
  ghost predicate Informed(s: State, l: nat, t: string)
    requires l in s.told && l in s.base && Known(s, l)
  {
    && At(s.pre, t) == Latest(s.base[l], Heard(s, l), t)
    && (t in s.told[l] <==> SomeDiffers(s.base[l], Heard(s, l), t))
    && (t in s.told[l] ==> s.told[l][t] == Latest(s.base[l], Heard(s, l), t))
  }

  ghost predicate AllInformed(s: State) {
    && s.subs.Keys == s.told.Keys == s.base.Keys
    && (forall l | l in s.subs :: Known(s, l))
    && forall l, t | l in s.subs && t in s.subs[l] :: Informed(s, l, t)
  }

  lemma DiffersSnoc(base: Temps, heard: seq<Temps>, report: Temps, t: string)
    ensures SomeDiffers(base, heard + [report], t) <==> SomeDiffers(base, heard, t) || Changed(base, report, t)
  {
    var longer := heard + [report];
    if SomeDiffers(base, heard, t) {
      var i :| 0 <= i < |heard| && Changed(base, heard[i], t);
      assert Changed(base, longer[i], t);
    }
    assert longer[|heard|] == report;
    assert forall i | 0 <= i < |heard| :: longer[i] == heard[i];
  }

  /** With nothing different heard, the latest reading is the one at the start. */
  lemma SameIfNoneDiffers(base: Temps, heard: seq<Temps>, t: string)
    requires !SomeDiffers(base, heard, t)
    ensures Latest(base, heard, t) == At(base, t)
  {}

  lemma NotifyInforms(s: State, report: Temps, s': State, l: nat, t: string)
    requires AllInformed(s) && l in s.subs && t in s.subs[l] && Notified(s, report, s')
    ensures Informed(s', l, t)
  {
    assert Informed(s, l, t);
    assert Heard(s', l) == Heard(s, l) + [report];
    DiffersSnoc(s.base[l], Heard(s, l), report, t);
    if !SomeDiffers(s.base[l], Heard(s, l), t) { SameIfNoneDiffers(s.base[l], Heard(s, l), t); }
    assert l in UpTo(s.told.Keys, l);
    assert WantedBy(s.subs, UpTo(s.told.Keys, l), t) && WantedBy(s.subs, s.told.Keys, t);
    assert Entry(s'.told[l], t) == if Changed(s.pre, report, t) then Some(At(report, t)) else Entry(s.told[l], t);
  }

  lemma SubscribeInforms(s: State, k: nat, types: seq<string>, s': State)
    requires AllInformed(s) && Step(s, Subscribe(k, types), s')
    ensures AllInformed(s')
  {
    forall l, t | l in s'.subs && t in s'.subs[l] ensures Informed(s', l, t) {
      if l in s.subs { assert Informed(s, l, t); }
    }
  }

  lemma UnsubscribeInforms(s: State, k: nat, s': State)
    requires AllInformed(s) && Step(s, Unsubscribe(k), s')
    ensures AllInformed(s')
  {}

  lemma StepInforms(s: State, e: Event, s': State)
    requires AllInformed(s) && Step(s, e, s')
    ensures AllInformed(s')
  {
    match e
    case Notify(report) =>
      forall l, t | l in s'.subs && t in s'.subs[l] ensures Informed(s', l, t) {
        NotifyInforms(s, report, s', l, t);
      }
    case Subscribe(k, types) => SubscribeInforms(s, k, types, s');
    case Unsubscribe(k) => UnsubscribeInforms(s, k, s');
  }

  /** Over any run of reports, subscriptions and unsubscriptions. */
  lemma {:induction false} NotificationIsComplete(states: seq<State>, es: seq<Event>)
    requires Run(states, es)
    ensures AllInformed(states[|es|])
  {
    if es != [] {
      var n := |es| - 1;
      NotificationIsComplete(states[..n + 1], es[..n]);
      StepInforms(states[n], es[n], states[n + 1]);
    }
  }

  /** What a listener has not been told it can only have missed by subscribing too late: the
      reading has been, ever since, what the shared table already held. */
  lemma UntoldMeansUnchanged(states: seq<State>, es: seq<Event>, l: nat, t: string)
    requires Run(states, es)
    requires var s := states[|es|]; l in s.subs && t in s.subs[l] && l in s.told && t !in s.told[l]
    ensures var s := states[|es|];
            && l in s.base && Known(s, l)
            && forall i | 0 <= i < |Heard(s, l)| :: !Changed(s.base[l], Heard(s, l)[i], t)
  {
    NotificationIsComplete(states, es);
    assert Informed(states[|es|], l, t);
  }

  // ----- the observer -----

  /** Where a notification stands once it has compared the types `w`: the table, the report and
      the changes collected, which are as yet the changes of all of `w`. */
  ghost predicate Compared(pre: Temps, report: Temps, w: set<string>, preNow: Temps, reportNow: Temps, changes: Temps) {
    && (forall t :: At(preNow, t) == if t in w then At(report, t) else At(pre, t))
    && (forall t :: Entry(reportNow, t) == if t in w then Some(At(report, t)) else Entry(report, t))
    && forall t :: Entry(changes, t) == if t in w && Changed(pre, report, t) then Some(At(report, t)) else None
  }

  class ThermalObserver {
    var sensorTempListeners: set<nat>
    var callbackTypeMap: map<nat, seq<string>>
    var preSensor: Temps
    var callbackinfo: Temps
    // whether the policy has registered, and the reports it has been called with
    var registered: bool
    var policyReports: seq<Temps>
    // what the listeners make of the calls they get
    var views: map<nat, Temps>
    ghost var base: map<nat, Temps>
    ghost var since: map<nat, nat>
    ghost var reports: seq<Temps>

    ghost predicate Valid()
      reads this
    {
      sensorTempListeners == callbackTypeMap.Keys == views.Keys == base.Keys == since.Keys
    }

    ghost function Snapshot(): State
      reads this
    {
      State(callbackTypeMap, views, preSensor, base, since, reports)
    }

    constructor ()
      ensures Valid() && Snapshot() == INITIAL
    {
      sensorTempListeners, callbackTypeMap, preSensor, callbackinfo, views := {}, map[], map[], map[], map[];
      base, since, reports := map[], map[], [];
      registered, policyReports := false, [];
    }

    method SetRegisterCallback()
      modifies this`registered
      ensures registered
    {
      registered := true;
    }

    method OnThermalTempChanged(listener: nat, changes: Temps)
      requires listener in views
      modifies this`views
      ensures views == old(views)[listener := old(views)[listener] + changes]
    {
      views := views[listener := views[listener] + changes];
    }

    method SubscribeThermalTempCallback(typeList: seq<string>, callback: nat)
      requires Valid()
      modifies this`sensorTempListeners, this`callbackTypeMap, this`views, this`base, this`since
      ensures Valid() && Step(old(Snapshot()), Subscribe(callback, typeList), Snapshot())
    {
      if callback in sensorTempListeners {
        return;
      }
      sensorTempListeners := sensorTempListeners + {callback};
      callbackTypeMap := callbackTypeMap[callback := typeList];
      views := views[callback := map[]];
      base, since := base[callback := preSensor], since[callback := |reports|];
      KeysOfUpdate(old(callbackTypeMap), callback, typeList);
      KeysOfUpdate(old(views), callback, map[]);
      KeysOfUpdate(old(base), callback, preSensor);
      KeysOfUpdate(old(since), callback, |reports|);
    }

    method UnSubscribeThermalTempCallback(callback: nat)
      requires Valid()
      modifies this`sensorTempListeners, this`callbackTypeMap, this`views, this`base, this`since
      ensures Valid() && Step(old(Snapshot()), Unsubscribe(callback), Snapshot())
    {
      callbackTypeMap := callbackTypeMap - {callback};
      sensorTempListeners := sensorTempListeners - {callback};
      views := views - {callback};
      base, since := base - {callback}, since - {callback};
    }

    /** The report becomes the current one, goes to the policy as it came, and is notified; sensors
        that were looked up in vain stay in it with a 0. */
    method OnReceivedSensorInfo(info: Temps)
      requires Valid()
      modifies this`callbackinfo, this`policyReports, this`views, this`preSensor, this`reports
      ensures policyReports == old(policyReports) + if registered then [info] else []
      ensures Valid() && Step(old(Snapshot()), Notify(info), Snapshot())
      ensures forall t :: Entry(callbackinfo, t) ==
                if WantedBy(callbackTypeMap, sensorTempListeners, t) then Some(At(info, t)) else Entry(info, t)
    {
      callbackinfo := info;
      if registered {
        policyReports := policyReports + [callbackinfo];
      }
      NotifySensorTempChanged();
    }

    method NotifySensorTempChanged()
      requires Valid()
      modifies this`callbackinfo, this`views, this`preSensor, this`reports
      ensures Valid() && Notified(old(Snapshot()), old(callbackinfo), Snapshot())
      ensures forall t :: Entry(callbackinfo, t) ==
                if WantedBy(callbackTypeMap, sensorTempListeners, t) then Some(At(old(callbackinfo), t))
                else Entry(old(callbackinfo), t)
    {
      if sensorTempListeners == {} {
        return;
      }
      ghost var s, report := Snapshot(), callbackinfo;
      ServeAll(s, report);
      reports := reports + [report];
    }

    /** Every listener in turn, with one map that accumulates what has changed. */
    method ServeAll(ghost s: State, ghost report: Temps)
      requires Valid() && s == Snapshot() && report == callbackinfo
      modifies this`callbackinfo, this`views, this`preSensor
      ensures Snapshot() == s.(told := views, pre := preSensor) && views.Keys == s.told.Keys
      ensures forall l | l in views :: ToldRight(s, report, l, views[l])
      ensures forall t :: At(preSensor, t) == if WantedBy(s.subs, s.told.Keys, t) then At(report, t) else At(s.pre, t)
      ensures forall t :: Entry(callbackinfo, t) ==
                if WantedBy(s.subs, s.told.Keys, t) then Some(At(report, t)) else Entry(report, t)
    {
      var newTempCbMap: Temps := map[];
      var todo := sensorTempListeners;
      ghost var done: set<nat> := {};
      ghost var w: set<string> := {};
      while todo != {}
        invariant Serving(s, report, done, todo, w, newTempCbMap)
        decreases todo
      {
        ghost var smallest := Smallest(todo);
        var listener :| listener in todo && forall t | t in todo :: listener <= t;
        newTempCbMap, w := Serve(listener, newTempCbMap, s, report, done, todo, w);
        todo, done := todo - {listener}, done + {listener};
      }
      assert done == s.told.Keys;
      assert forall t :: t in w <==> WantedBy(s.subs, s.told.Keys, t);
    }

    /** The listeners `done` have been told, those of `todo` not yet; `w` is what the former want. */
    ghost predicate Serving(s: State, report: Temps, done: set<nat>, todo: set<nat>, w: set<string>, changes: Temps)
      reads this
    {
      && Snapshot() == s.(told := views, pre := preSensor)
      && s.subs.Keys == s.told.Keys == views.Keys
      && done + todo == s.told.Keys && done !! todo && InTurn(done, todo)
      && (forall t :: t in w <==> WantedBy(s.subs, done, t))
      && Compared(s.pre, report, w, preSensor, callbackinfo, changes)
      && forall l | l in views :: if l in done then ToldRight(s, report, l, views[l]) else views[l] == s.told[l]
    }

    /** The body of the loop. */
    method Serve(listener: nat, newTempCbMap: Temps, ghost s: State, ghost report: Temps, ghost done: set<nat>,
                 ghost todo: set<nat>, ghost w: set<string>)
      returns (r: Temps, ghost w': set<string>)
      requires Serving(s, report, done, todo, w, newTempCbMap)
      requires listener in todo && forall t | t in todo :: listener <= t
      modifies this`callbackinfo, this`views, this`preSensor
      ensures Serving(s, report, done + {listener}, todo - {listener}, w', r)
    {
      NextInTurn(done, todo, listener);
      r, w' := newTempCbMap, w;
      if listener in callbackTypeMap {
        r := CompareTypes(callbackTypeMap[listener], r, s.pre, report, w);
        w' := w + Types(callbackTypeMap[listener]);
        WantedOne(s.subs, done, listener);
      }
      ToldOne(s, report, listener, w', r);
      OnThermalTempChanged(listener, r);
    }

    /** Compare the reported with the previous reading of every listed type. */
    method CompareTypes(types: seq<string>, newTempCbMap: Temps, ghost pre: Temps, ghost report: Temps,
                        ghost w: set<string>)
      returns (r: Temps)
      requires Compared(pre, report, w, preSensor, callbackinfo, newTempCbMap)
      modifies this`callbackinfo, this`preSensor
      ensures Compared(pre, report, w + Types(types), preSensor, callbackinfo, r)
    {
      r := newTempCbMap;
      for i := 0 to |types|
        invariant Compared(pre, report, w + Types(types[..i]), preSensor, callbackinfo, r)
      {
        r := CompareType(types[i], r, pre, report, w + Types(types[..i]));
        TypesSnoc(types, i, w);
      }
      assert types[..|types|] == types;
    }

    method CompareType(type_: string, newTempCbMap: Temps, ghost pre: Temps, ghost report: Temps, ghost w: set<string>)
      returns (r: Temps)
      requires Compared(pre, report, w, preSensor, callbackinfo, newTempCbMap)
      modifies this`callbackinfo, this`preSensor
      ensures Compared(pre, report, w + {type_}, preSensor, callbackinfo, r)
    {
      r := newTempCbMap;
      if type_ !in preSensor {
        preSensor := preSensor[type_ := 0];
      }
      if type_ !in callbackinfo {
        callbackinfo := callbackinfo[type_ := 0];
      }
      if preSensor[type_] != callbackinfo[type_] {
        if type_ !in r {
          r := r[type_ := callbackinfo[type_]];
        }
        preSensor := preSensor[type_ := callbackinfo[type_]];
      }
      ComparedOne(pre, report, w, type_, old(preSensor), old(callbackinfo), newTempCbMap, preSensor, callbackinfo, r);
    }
  }

  /** The view of listener l after a notification. */
  ghost predicate ToldRight(s: State, report: Temps, l: nat, view: Temps)
    requires l in s.told
  {
    forall t :: Entry(view, t) ==
      if WantedBy(s.subs, UpTo(s.told.Keys, l), t) && Changed(s.pre, report, t) then Some(At(report, t))
      else Entry(s.told[l], t)
  }

  lemma TypesSnoc(types: seq<string>, i: nat, w: set<string>)
    requires i < |types|
    ensures w + Types(types[..i + 1]) == w + Types(types[..i]) + {types[i]}
  {}

  lemma ComparedOne(pre: Temps, report: Temps, w: set<string>, t: string,
                    p: Temps, c: Temps, n: Temps, p': Temps, c': Temps, n': Temps)
    requires Compared(pre, report, w, p, c, n)
    requires p' == p[t := At(c, t)] && c' == c[t := At(c, t)]
    requires n' == if At(p, t) != At(c, t) && t !in n then n[t := At(c, t)] else n
    ensures Compared(pre, report, w + {t}, p', c', n')
  {
    assert Entry(c, t) == if t in w then Some(At(report, t)) else Entry(report, t);
    assert At(p, t) == if t in w then At(report, t) else At(pre, t);
    assert Entry(n, t) == if t in w && Changed(pre, report, t) then Some(At(report, t)) else None;
    forall u
      ensures At(p', u) == if u == t then At(report, t) else At(p, u)
      ensures Entry(c', u) == if u == t then Some(At(report, t)) else Entry(c, u)
      ensures Entry(n', u) == if u == t && Changed(pre, report, t) then Some(At(report, t)) else Entry(n, u)
    {}
  }

  lemma ToldOne(s: State, report: Temps, l: nat, w: set<string>, changes: Temps)
    requires l in s.told && forall t :: t in w <==> WantedBy(s.subs, UpTo(s.told.Keys, l), t)
    requires forall t :: Entry(changes, t) == if t in w && Changed(s.pre, report, t) then Some(At(report, t)) else None
    ensures ToldRight(s, report, l, s.told[l] + changes)
  {}

  function Types(s: seq<string>): set<string> { set t | t in s }

  lemma WantedOne(subs: map<nat, seq<string>>, done: set<nat>, l: nat)
    requires l in subs
    ensures forall t :: WantedBy(subs, done + {l}, t) <==> WantedBy(subs, done, t) || t in Types(subs[l])
  {}
}
