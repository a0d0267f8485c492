/** The smallest element of a set, walking a set in ascending order, and the keys of a map. */
module Sets {
  function UpTo(ls: set<nat>, l: nat): set<nat> { set k | k in ls && k <= l }

  ghost function Smallest(s: set<nat>): (m: nat)
    requires s != {}
    ensures m in s && forall x | x in s :: m <= x
  {
    var x :| x in s;
    if s == {x} then x else
      var m := Smallest(s - {x});
      assert forall y | y in s :: y == x || y in s - {x};
      if m < x then m else x
  }

  /** Everything done is below everything still to do. */
  ghost predicate InTurn(done: set<nat>, todo: set<nat>) { forall d, t | d in done && t in todo :: d < t }

  lemma NextInTurn(done: set<nat>, todo: set<nat>, l: nat)
    requires InTurn(done, todo) && l in todo && forall t | t in todo :: l <= t
    ensures UpTo(done + todo, l) == done + {l} && InTurn(done + {l}, todo - {l})
  {}

  lemma KeysOfUpdate<K, V>(m: map<K, V>, k: K, v: V)
    ensures m[k := v].Keys == m.Keys + {k}
  {}
}
