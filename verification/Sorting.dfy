/** `std::sort` by an integer key. The source's sort leaves the order of equal keys open; here it
    is the stable one. `AnySortAgreesExactly` says when that makes no difference. */
module Sorting {

  ghost predicate Ordered<T>(s: seq<T>, key: T -> int) {
    forall i, j | 0 <= i < j < |s| :: key(s[i]) <= key(s[j])
  }

  ghost predicate DistinctKeys<T>(s: seq<T>, key: T -> int) {
    forall i, j | 0 <= i < j < |s| :: key(s[i]) != key(s[j])
  }

  function Insert<T>(s: seq<T>, x: T, key: T -> int): (r: seq<T>)
    ensures |r| == |s| + 1
  {
    if s == [] || key(s[|s| - 1]) <= key(x) then s + [x]
    else Insert(s[..|s| - 1], x, key) + [s[|s| - 1]]
  }

  function Sort<T>(s: seq<T>, key: T -> int): (r: seq<T>)
    ensures |r| == |s|
  {
    if s == [] then [] else Insert(Sort(s[..|s| - 1], key), s[|s| - 1], key)
  }

  lemma {:induction false} InsertMembers<T>(s: seq<T>, x: T, key: T -> int, e: T)
    ensures e in Insert(s, x, key) <==> e in s || e == x
  {
    if !(s == [] || key(s[|s| - 1]) <= key(x)) {
      InsertMembers(s[..|s| - 1], x, key, e);
      assert s == s[..|s| - 1] + [s[|s| - 1]];
    }
  }

  lemma {:induction false} InsertOrders<T>(s: seq<T>, x: T, key: T -> int)
    requires Ordered(s, key)
    ensures Ordered(Insert(s, x, key), key)
  {
    if !(s == [] || key(s[|s| - 1]) <= key(x)) {
      var front, last := s[..|s| - 1], s[|s| - 1];
      InsertOrders(front, x, key);
      var r := Insert(front, x, key);
      forall i | 0 <= i < |r| ensures key(r[i]) <= key(last) { InsertMembers(front, x, key, r[i]); }
    }
  }

  lemma {:induction false} InsertPermutes<T>(s: seq<T>, x: T, key: T -> int)
    ensures multiset(Insert(s, x, key)) == multiset(s) + multiset{x}
  {
    if !(s == [] || key(s[|s| - 1]) <= key(x)) {
      InsertPermutes(s[..|s| - 1], x, key);
      assert s == s[..|s| - 1] + [s[|s| - 1]];
    }
  }

  lemma {:induction false} InsertKeepsDistinct<T>(s: seq<T>, x: T, key: T -> int)
    requires DistinctKeys(s, key) && forall i | 0 <= i < |s| :: key(s[i]) != key(x)
    ensures DistinctKeys(Insert(s, x, key), key)
  {
    if !(s == [] || key(s[|s| - 1]) <= key(x)) {
      var front, last := s[..|s| - 1], s[|s| - 1];
      InsertKeepsDistinct(front, x, key);
      var r := Insert(front, x, key);
      forall i | 0 <= i < |r| ensures key(r[i]) != key(last) { InsertMembers(front, x, key, r[i]); }
    }
  }

  /** The result is an ordered permutation of the list. */
  lemma {:induction false} SortSorts<T>(s: seq<T>, key: T -> int)
    ensures Ordered(Sort(s, key), key) && multiset(Sort(s, key)) == multiset(s)
  {
    if s != [] {
      var front, last := s[..|s| - 1], s[|s| - 1];
      assert s == front + [last];
      SortSorts(front, key);
      InsertOrders(Sort(front, key), last, key);
      InsertPermutes(Sort(front, key), last, key);
    }
  }

  lemma {:induction false} SortMembers<T>(s: seq<T>, key: T -> int, e: T)
    ensures e in Sort(s, key) <==> e in s
  {
    if s != [] {
      SortMembers(s[..|s| - 1], key, e);
      InsertMembers(Sort(s[..|s| - 1], key), s[|s| - 1], key, e);
      assert s == s[..|s| - 1] + [s[|s| - 1]];
    }
  }

  lemma {:induction false} SortKeepsDistinct<T>(s: seq<T>, key: T -> int)
    requires DistinctKeys(s, key)
    ensures DistinctKeys(Sort(s, key), key)
  {
    if s != [] {
      var front, last := s[..|s| - 1], s[|s| - 1];
      SortKeepsDistinct(front, key);
      var r := Sort(front, key);
      forall i | 0 <= i < |r| ensures key(r[i]) != key(last) { SortMembers(front, key, r[i]); }
      InsertKeepsDistinct(r, last, key);
    }
  }

  lemma {:induction false} InsertReflectsDistinct<T>(s: seq<T>, x: T, key: T -> int)
    requires DistinctKeys(Insert(s, x, key), key)
    ensures DistinctKeys(s, key) && forall i | 0 <= i < |s| :: key(s[i]) != key(x)
  {
    var r := Insert(s, x, key);
    if s == [] || key(s[|s| - 1]) <= key(x) {
      assert forall i | 0 <= i < |s| :: r[i] == s[i];
      assert r[|s|] == x;
    } else {
      var front, last := s[..|s| - 1], s[|s| - 1];
      var below := Insert(front, x, key);
      assert forall i | 0 <= i < |below| :: r[i] == below[i];
      InsertReflectsDistinct(front, x, key);
      forall e | e in front || e == x ensures key(e) != key(last) {
        InsertMembers(front, x, key, e);
        var i :| 0 <= i < |below| && below[i] == e;
        assert r[i] == e && r[|below|] == last;
      }
      assert forall i | 0 <= i < |front| :: s[i] == front[i] && s[i] in front;
    }
  }

  lemma {:induction false} SortReflectsDistinct<T>(s: seq<T>, key: T -> int)
    requires DistinctKeys(Sort(s, key), key)
    ensures DistinctKeys(s, key)
  {
    if s != [] {
      var front, last := s[..|s| - 1], s[|s| - 1];
      InsertReflectsDistinct(Sort(front, key), last, key);
      SortReflectsDistinct(front, key);
      forall i | 0 <= i < |front| ensures key(s[i]) != key(last) {
        SortMembers(front, key, front[i]);
        assert s[i] == front[i];
      }
      assert forall i | 0 <= i < |front| :: s[i] == front[i];
    }
  }

  lemma {:induction false} SortKeepsOrdered<T>(s: seq<T>, key: T -> int)
    requires Ordered(s, key)
    ensures Sort(s, key) == s
  {
    if s != [] {
      SortKeepsOrdered(s[..|s| - 1], key);
      assert s == s[..|s| - 1] + [s[|s| - 1]];
    }
  }

  // ----- the only sorted order -----

  ghost predicate KeyDetermines<T>(s: seq<T>, key: T -> int) {
    forall i, j | 0 <= i < |s| && 0 <= j < |s| && key(s[i]) == key(s[j]) :: s[i] == s[j]
  }

  lemma LastAgrees<T>(s: seq<T>, t: seq<T>, key: T -> int)
    requires Ordered(s, key) && Ordered(t, key) && multiset(s) == multiset(t) && KeyDetermines(s, key) && s != []
    ensures |s| == |t| && s[|s| - 1] == t[|t| - 1]
  {
    assert |s| == |multiset(s)| == |multiset(t)| == |t|;
    var x, y := s[|s| - 1], t[|t| - 1];
    assert x in multiset(t) && y in multiset(s);
    var i :| 0 <= i < |t| && t[i] == x;
    var j :| 0 <= j < |s| && s[j] == y;
  }

  lemma WithoutLast<T>(s: seq<T>, f: seq<T>, x: T)
    requires s != [] && f == s[..|s| - 1] && x == s[|s| - 1]
    ensures multiset(f) == multiset(s) - multiset{x}
  {
    assert s == f + [x];
  }

  lemma FrontsPermute<T>(s: seq<T>, t: seq<T>)
    requires multiset(s) == multiset(t) && s != [] && t != [] && s[|s| - 1] == t[|t| - 1]
    ensures multiset(s[..|s| - 1]) == multiset(t[..|t| - 1])
  {
    var f, g, x := s[..|s| - 1], t[..|t| - 1], s[|s| - 1];
    WithoutLast(s, f, x);
    WithoutLast(t, g, x);
  }

  lemma {:induction false} OrderedPermutationsAgree<T>(s: seq<T>, t: seq<T>, key: T -> int)
    requires Ordered(s, key) && Ordered(t, key) && multiset(s) == multiset(t) && KeyDetermines(s, key)
    ensures s == t
  {
    if s == [] {
      assert |t| == |multiset(t)| == 0;
    } else {
      LastAgrees(s, t, key);
      FrontsPermute(s, t);
      OrderedPermutationsAgree(s[..|s| - 1], t[..|t| - 1], key);
      assert s == s[..|s| - 1] + [s[|s| - 1]] && t == t[..|t| - 1] + [t[|t| - 1]];
    }
  }

  /** Exchanging two entries of equal key keeps an ordered list ordered. */
  lemma Exchange<T>(s: seq<T>, i: nat, j: nat, key: T -> int) returns (t: seq<T>)
    requires Ordered(s, key) && i < |s| && j < |s| && key(s[i]) == key(s[j]) && s[i] != s[j]
    ensures Ordered(t, key) && multiset(t) == multiset(s) && t != s
  {
    t := s[i := s[j]][j := s[i]];
    assert t[i] == s[j];
  }

  /** Every sort gives the same list exactly if entries with equal keys are equal. */
  lemma AnySortAgreesExactly<T(!new)>(s: seq<T>, key: T -> int)
    ensures (forall t | Ordered(t, key) && multiset(t) == multiset(s) :: t == Sort(s, key)) <==> KeyDetermines(s, key)
  {
    var r := Sort(s, key);
    SortSorts(s, key);
    KeyDeterminesPermuted(s, r, key);
    if KeyDetermines(s, key) {
      forall t | Ordered(t, key) && multiset(t) == multiset(s) ensures t == r {
        OrderedPermutationsAgree(r, t, key);
      }
    } else {
      var i, j :| 0 <= i < |r| && 0 <= j < |r| && key(r[i]) == key(r[j]) && r[i] != r[j];
      var t := Exchange(r, i, j, key);
    }
  }

  lemma KeyDeterminesPermuted<T>(s: seq<T>, r: seq<T>, key: T -> int)
    requires multiset(s) == multiset(r)
    ensures KeyDetermines(s, key) <==> KeyDetermines(r, key)
  {
    if KeyDetermines(s, key) { KeyDeterminesCarries(s, r, key); }
    if KeyDetermines(r, key) { KeyDeterminesCarries(r, s, key); }
  }

  lemma KeyDeterminesCarries<T>(s: seq<T>, r: seq<T>, key: T -> int)
    requires multiset(s) == multiset(r) && KeyDetermines(s, key)
    ensures KeyDetermines(r, key)
  {
    forall i, j | 0 <= i < |r| && 0 <= j < |r| && key(r[i]) == key(r[j]) ensures r[i] == r[j] {
      assert r[i] in multiset(s) && r[j] in multiset(s);
      var a :| 0 <= a < |s| && s[a] == r[i];
      var b :| 0 <= b < |s| && s[b] == r[j];
    }
  }
}
