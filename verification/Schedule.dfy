/**
 The sampling schedule of the protector: one timer ticks at the greatest common divisor of all
 intervals, every zone is read at its own multiple of it, and the tick count starts again at the
 largest multiple.
 */
module Schedule {

  // ----- C arithmetic -----

  function TruncMod(a: int, b: int): (r: int)
    requires b != 0
    ensures if b > 0 then -b < r < b else b < r < -b
  {
    if a >= 0 then a % b else -((-a) % b)
  }

  function TruncDiv(a: int, b: int): int
    requires b != 0
  {
    if a >= 0 then a / b else -((-a) / b)
  }

  lemma Magnitude(a: int, b: int)
    requires a >= 0 && b != 0
    ensures a == (a / b) * b + a % b && 0 <= a % b && (a % b < b || a % b < -b)
  {}

  /** Division rounds toward zero, and the remainder takes the sign of the dividend. */
  lemma TruncatedDivision(a: int, b: int)
    requires b != 0
    ensures a == TruncDiv(a, b) * b + TruncMod(a, b)
    ensures if a >= 0 then TruncMod(a, b) >= 0 else TruncMod(a, b) <= 0
  {
    Magnitude(if a >= 0 then a else -a, b);
    if a < 0 { Negated(-a / b, b, -a % b); }
  }

  lemma Negated(q: int, b: int, r: int)
    ensures -(q * b + r) == (-q) * b + -r
  {}

  // ----- divisors -----

  function Times(q: int, d: int): int { q * d }

  ghost predicate Divides(d: int, n: int) { exists q :: n == Times(q, d) }

  ghost predicate DividesAll(d: int, ns: seq<int>) { forall i | 0 <= i < |ns| :: Divides(d, ns[i]) }

  /** Non-negative, a divisor of all, and a multiple of every other common divisor. */
  ghost predicate IsGcd(g: int, ns: seq<int>) {
    g >= 0 && DividesAll(g, ns) && forall d | DividesAll(d, ns) :: Divides(d, g)
  }

  lemma DividesSum(d: int, a: int, b: int, k: int)
    requires Divides(d, a) && Divides(d, b)
    ensures Divides(d, a + Times(k, b))
  {
    var p :| a == Times(p, d);
    var q :| b == Times(q, d);
    assert a + k * b == Times(p + k * q, d) by { Distribute(p, k, q, d); }
  }

  lemma Distribute(p: int, k: int, q: int, d: int)
    ensures p * d + k * (q * d) == (p + k * q) * d
  {}

  /** The greatest common divisor divides whatever is divided by it, transitively. */
  lemma DividesTransitive(d: int, g: int, n: int)
    requires Divides(d, g) && Divides(g, n)
    ensures Divides(d, n)
  {
    var p :| g == Times(p, d);
    var q :| n == Times(q, g);
    assert n == Times(q * p, d) by { Associate(q, p, d); }
  }

  lemma Associate(q: int, p: int, d: int)
    ensures q * (p * d) == q * p * d
  {}

  /** One step of Euclid's algorithm keeps the common divisors. */
  lemma EuclidStep(d: int, a: int, b: int)
    requires a >= 0 && b > 0
    ensures DividesAll(d, [a, b]) <==> DividesAll(d, [b, a % b])
  {
    var q, r := a / b, a % b;
    assert a == r + Times(q, b) && r == a + Times(-q, b) by { Quotient(a, b); }
    if DividesAll(d, [a, b]) {
      assert Divides(d, [a, b][0]) && Divides(d, [a, b][1]);
      DividesSum(d, a, b, -q);
    }
    if DividesAll(d, [b, r]) {
      assert Divides(d, [b, r][0]) && Divides(d, [b, r][1]);
      DividesSum(d, r, b, q);
    }
  }

  lemma Quotient(a: int, b: int)
    requires b > 0
    ensures a == a % b + (a / b) * b && a % b == a + (-(a / b)) * b
  {}

  // ----- the common divisor of the intervals -----

  function GetMaxCommonDivisor(a: int, b: int): int
    decreases if b >= 0 then b else -b
  {
    if b == 0 then 0
    else if TruncMod(a, b) == 0 then b
    else GetMaxCommonDivisor(b, TruncMod(a, b))
  }

  lemma {:induction false} EuclidIsCorrect(a: int, b: int)
    requires a >= 0 && b > 0
    ensures GetMaxCommonDivisor(a, b) > 0 && IsGcd(GetMaxCommonDivisor(a, b), [a, b])
    decreases b
  {
    var r := a % b;
    if r == 0 {
      Quotient(a, b);
      assert a == Times(a / b, b) && b == Times(1, b);
      forall d | DividesAll(d, [a, b]) ensures Divides(d, b) { assert Divides(d, [a, b][1]); }
    } else {
      EuclidIsCorrect(b, r);
      var g := GetMaxCommonDivisor(b, r);
      EuclidStep(g, a, b);
      forall d | DividesAll(d, [a, b]) ensures Divides(d, g) { EuclidStep(d, a, b); }
    }
  }

  /** A zero second operand answers 0: for intervals that are not negative the answer is right
      exactly if the second is positive or the first is zero too. */
  lemma DivisorIsRightExactly(a: int, b: int)
    requires a >= 0 && b >= 0
    ensures IsGcd(GetMaxCommonDivisor(a, b), [a, b]) <==> b > 0 || a == 0
  {
    if b > 0 {
      EuclidIsCorrect(a, b);
    } else if a == 0 {
      ZeroDividesOnlyZero(0);
      forall d ensures Divides(d, 0) { assert 0 == Times(0, d); }
    } else {
      ZeroDividesOnlyZero(a);
      assert !Divides(0, [a, b][0]);
    }
  }

  lemma ZeroDividesOnlyZero(n: int)
    ensures Divides(0, n) <==> n == 0
  {
    if n == 0 { assert n == Times(0, 0); }
  }

  function Fold(xs: seq<int>): int {
    if xs == [] then 0
    else if |xs| == 1 then xs[0]
    else GetMaxCommonDivisor(Fold(xs[..|xs| - 1]), xs[|xs| - 1])
  }

  method GetIntervalCommonDivisor(intervalList: seq<int>) returns (commonDivisor: int)
    ensures commonDivisor == Fold(intervalList)
  {
    if intervalList == [] {
      return 0;
    }
    commonDivisor := intervalList[0];
    for i := 1 to |intervalList|
      invariant commonDivisor == Fold(intervalList[..i])
    {
      assert intervalList[..i + 1][..i] == intervalList[..i];
      commonDivisor := GetMaxCommonDivisor(commonDivisor, intervalList[i]);
    }
    assert intervalList[..|intervalList|] == intervalList;
  }

  /** The intervals after the last zero. */
  function AfterLastZero(xs: seq<int>): seq<int> {
    if xs == [] || xs[|xs| - 1] == 0 then [] else AfterLastZero(xs[..|xs| - 1]) + [xs[|xs| - 1]]
  }

  lemma DividesAllSnoc(d: int, xs: seq<int>, x: int)
    ensures DividesAll(d, xs + [x]) <==> DividesAll(d, xs) && Divides(d, x)
  {
    assert (xs + [x])[|xs|] == x && forall i | 0 <= i < |xs| :: (xs + [x])[i] == xs[i];
  }

  lemma GcdSnoc(g: int, xs: seq<int>, x: int)
    requires IsGcd(g, xs) && x > 0
    ensures GetMaxCommonDivisor(g, x) > 0 && IsGcd(GetMaxCommonDivisor(g, x), xs + [x])
  {
    var h := GetMaxCommonDivisor(g, x);
    EuclidIsCorrect(g, x);
    assert Divides(h, [g, x][0]) && Divides(h, [g, x][1]);
    forall i | 0 <= i < |xs| ensures Divides(h, xs[i]) { DividesTransitive(h, g, xs[i]); }
    DividesAllSnoc(h, xs, x);
    forall d | DividesAll(d, xs + [x]) ensures Divides(d, h) {
      DividesAllSnoc(d, xs, x);
      assert DividesAll(d, [g, x]);
    }
  }

  lemma ZeroIsGcdOfNone()
    ensures IsGcd(0, [])
  {
    forall d ensures Divides(d, 0) { assert 0 == Times(0, d); }
  }

  /** What the fold computes for any intervals that are not negative: a zero makes it forget
      everything before it. */
  lemma {:induction false} ZeroForgets(xs: seq<int>)
    requires forall i | 0 <= i < |xs| :: xs[i] >= 0
    ensures IsGcd(Fold(xs), AfterLastZero(xs))
    ensures xs != [] && xs[|xs| - 1] > 0 ==> Fold(xs) > 0
  {
    ZeroIsGcdOfNone();
    if xs != [] {
      var front, x := xs[..|xs| - 1], xs[|xs| - 1];
      ZeroForgets(front);
      if x > 0 {
        GcdSnoc(Fold(front), AfterLastZero(front), x);
        if |xs| == 1 { assert front == [] && GetMaxCommonDivisor(0, x) == x; }
      }
    }
  }

  lemma {:induction false} NoZeroNothingForgotten(xs: seq<int>)
    requires forall i | 0 <= i < |xs| :: xs[i] > 0
    ensures AfterLastZero(xs) == xs
  {
    if xs != [] { NoZeroNothingForgotten(xs[..|xs| - 1]); }
  }

  /** For positive intervals the fold is their greatest common divisor. */
  lemma FoldIsGcd(xs: seq<int>)
    requires xs != [] && forall i | 0 <= i < |xs| :: xs[i] > 0
    ensures Fold(xs) > 0 && IsGcd(Fold(xs), xs)
  {
    ZeroForgets(xs);
    NoZeroNothingForgotten(xs);
  }

  lemma {:induction false} StillCommonAfterZero(d: int, xs: seq<int>)
    requires DividesAll(d, xs)
    ensures DividesAll(d, AfterLastZero(xs))
  {
    if xs != [] && xs[|xs| - 1] != 0 {
      var front, x := xs[..|xs| - 1], xs[|xs| - 1];
      assert xs == front + [x];
      DividesAllSnoc(d, front, x);
      StillCommonAfterZero(d, front);
      DividesAllSnoc(d, AfterLastZero(front), x);
    }
  }

  /** With zeros among the intervals the answer is right exactly if whatever is common to the
      intervals after the last zero is common to all of them. */
  lemma FoldIsRightExactly(xs: seq<int>)
    requires forall i | 0 <= i < |xs| :: xs[i] >= 0
    ensures IsGcd(Fold(xs), xs) <==> forall d | DividesAll(d, AfterLastZero(xs)) :: DividesAll(d, xs)
  {
    ZeroForgets(xs);
    forall d | DividesAll(d, xs) ensures Divides(d, Fold(xs)) { StillCommonAfterZero(d, xs); }
    if IsGcd(Fold(xs), xs) {
      forall d | DividesAll(d, AfterLastZero(xs)) ensures DividesAll(d, xs) {
        forall i | 0 <= i < |xs| ensures Divides(d, xs[i]) { DividesTransitive(d, Fold(xs), xs[i]); }
      }
    }
  }

  /** It need not: the zero in 4, 0, 6 makes the answer 6. */
  lemma ZeroSpoilsTheDivisor()
    ensures Fold([4, 0, 6]) == 6 && !IsGcd(6, [4, 0, 6])
  {
    assert [4, 0, 6][..2] == [4, 0] && [4, 0][..1] == [4];
    assert Fold([4, 0]) == 0;
    assert !Divides(6, [4, 0, 6][0]);
  }

  // ----- zones and their multiples -----

  datatype Zone = Zone(name: string, interval: int, multiple: int, path: string)

  function Intervals(zones: seq<Zone>): (r: seq<int>)
    ensures |r| == |zones| && forall i | 0 <= i < |zones| :: r[i] == zones[i].interval
  {
    if zones == [] then [] else Intervals(zones[..|zones| - 1]) + [zones[|zones| - 1].interval]
  }

  function Multiples(zones: seq<Zone>): (r: seq<int>)
    ensures |r| == |zones| && forall i | 0 <= i < |zones| :: r[i] == zones[i].multiple
  {
    if zones == [] then [] else Multiples(zones[..|zones| - 1]) + [zones[|zones| - 1].multiple]
  }

  class ThermalKernelPolicy {
    var tzInfoMap: seq<Zone>   // in name order
    var maxCd: int

    constructor (zones: seq<Zone>)
      ensures tzInfoMap == zones && maxCd == 0
    {
      tzInfoMap, maxCd := zones, 0;
    }

    method CalculateMaxCd()
      modifies this`maxCd
      ensures maxCd == Fold(Intervals(tzInfoMap))
    {
      var intervalList := [];
      for i := 0 to |tzInfoMap|
        invariant intervalList == Intervals(tzInfoMap[..i])
      {
        assert tzInfoMap[..i + 1][..i] == tzInfoMap[..i];
        intervalList := intervalList + [tzInfoMap[i].interval];
      }
      assert tzInfoMap[..|tzInfoMap|] == tzInfoMap;
      maxCd := GetIntervalCommonDivisor(intervalList);
    }

    method SetMultiples()
      modifies this
      ensures maxCd == Fold(Intervals(old(tzInfoMap))) && |tzInfoMap| == |old(tzInfoMap)|
      ensures forall i | 0 <= i < |tzInfoMap| ::
                tzInfoMap[i] == if maxCd == 0 then old(tzInfoMap)[i] else WithMultiple(old(tzInfoMap)[i], maxCd)
    {
      CalculateMaxCd();
      if maxCd == 0 {
        return;
      }
      ghost var zones := tzInfoMap;
      for i := 0 to |tzInfoMap|
        invariant maxCd == Fold(Intervals(zones)) && maxCd != 0 && |tzInfoMap| == |zones|
        invariant forall j | 0 <= j < i :: tzInfoMap[j] == WithMultiple(zones[j], maxCd)
        invariant forall j | i <= j < |zones| :: tzInfoMap[j] == zones[j]
      {
        tzInfoMap := tzInfoMap[i := WithMultiple(tzInfoMap[i], maxCd)];
      }
    }
  }

  function WithMultiple(z: Zone, maxCd: int): Zone
    requires maxCd != 0
  {
    z.(multiple := TruncDiv(z.interval, maxCd))
  }

  /** What `SetMultiples` leaves for positive intervals: every interval is exactly its multiple of
      the common divisor, and no number but 1 divides all multiples. */
  lemma MultiplesAreExact(zones: seq<Zone>, zones': seq<Zone>)
    requires zones != [] && |zones'| == |zones| && forall i | 0 <= i < |zones| :: zones[i].interval > 0
    requires Fold(Intervals(zones)) != 0
    requires forall i | 0 <= i < |zones| :: zones'[i] == WithMultiple(zones[i], Fold(Intervals(zones)))
    ensures forall i | 0 <= i < |zones| ::
              zones'[i].multiple >= 1 && Times(zones'[i].multiple, Fold(Intervals(zones))) == zones[i].interval
    ensures IsGcd(1, Multiples(zones'))
  {
    var xs, ms := Intervals(zones), Multiples(zones');
    var g := Fold(xs);
    FoldIsGcd(xs);
    forall i | 0 <= i < |zones| ensures ms[i] >= 1 && Times(ms[i], g) == xs[i] {
      assert Divides(g, xs[i]);
      var q :| xs[i] == Times(q, g);
      ExactQuotient(xs[i], q, g);
    }
    forall i | 0 <= i < |ms| ensures Divides(1, ms[i]) { assert ms[i] == Times(ms[i], 1); }
    forall d | DividesAll(d, ms) ensures Divides(d, 1) {
      forall i | 0 <= i < |xs| ensures Divides(d * g, xs[i]) {
        assert Divides(d, ms[i]);
        var q :| ms[i] == Times(q, d);
        assert xs[i] == Times(q, d * g) by { Associate(q, d, g); }
      }
      assert Divides(d * g, g);
      var q :| g == Times(q, d * g);
      Cancel(q, d, g);
      assert 1 == Times(q, d);
    }
  }

  lemma ExactQuotient(x: int, q: int, g: int)
    requires x > 0 && g > 0 && x == q * g
    ensures q >= 1 && TruncDiv(x, g) == q
  {
    if q <= 0 { NonPositiveProduct(q, g); }
    QuotientOfProduct(q, g);
  }

  lemma NonPositiveProduct(q: int, g: int)
    requires q <= 0 && g > 0
    ensures q * g <= 0
  {}

  lemma QuotientOfProduct(q: int, g: int)
    requires g > 0
    ensures q * g / g == q
  {
    var x := q * g;
    Quotient(x, g);
    FactorUnique(x / g, q, x % g, 0, g);
  }

  lemma Cancel(q: int, d: int, g: int)
    requires g > 0 && g == q * (d * g)
    ensures 1 == q * d
  {
    Associate(q, d, g);
    if q * d != 1 { DifferentFactor(q * d, g); }
  }

  lemma DifferentFactor(k: int, g: int)
    requires g > 0 && k != 1
    ensures k * g != g
  {}

  // ----- one tick -----

  predicate DueAtTime(reportTime: int, multiple: int) { multiple != 0 && TruncMod(reportTime, multiple) == 0 }

  /** The zone is read in a report, if its path is set and its file can be read. */
  predicate IsRead(z: Zone, reportTime: int, files: map<string, int>) {
    DueAtTime(reportTime, z.multiple) && z.path != "" && z.path in files
  }

  /** The multiples of the first k zones that have one. */
  function Counted(zones: seq<Zone>, k: nat): seq<int>
    requires k <= |zones|
  {
    if k == 0 then []
    else if zones[k - 1].multiple == 0 then Counted(zones, k - 1)
    else Counted(zones, k - 1) + [zones[k - 1].multiple]
  }

  function Occurrences(ms: seq<int>, m: int): nat {
    if ms == [] then 0 else Occurrences(ms[..|ms| - 1], m) + if ms[|ms| - 1] == m then 1 else 0
  }

  /** How many of the first k zones have this multiple. */
  function ZonesWith(zones: seq<Zone>, k: nat, m: int): nat
    requires k <= |zones|
  {
    if k == 0 then 0 else ZonesWith(zones, k - 1, m) + if zones[k - 1].multiple == m then 1 else 0
  }

  /** The multiples counted are those of the zones, each as often as it occurs, and no zero. */
  lemma {:induction false} CountedExactly(zones: seq<Zone>, k: nat, m: int)
    requires k <= |zones|
    ensures Occurrences(Counted(zones, k), m) == if m == 0 then 0 else ZonesWith(zones, k, m)
  {
    if k > 0 {
      CountedExactly(zones, k - 1, m);
      OccurrencesSnoc(Counted(zones, k - 1), zones[k - 1].multiple, m);
    }
  }

  lemma OccurrencesSnoc(ms: seq<int>, x: int, m: int)
    ensures Occurrences(ms + [x], m) == Occurrences(ms, m) + if x == m then 1 else 0
  {
    assert (ms + [x])[..|ms|] == ms;
  }

  predicate DistinctNames(zones: seq<Zone>) { forall i, j | 0 <= i < j < |zones| :: zones[i].name != zones[j].name }

  /** What the first k zones report. */
  function Readings(zones: seq<Zone>, reportTime: int, files: map<string, int>, k: nat): map<string, int>
    requires k <= |zones|
  {
    if k == 0 then map[]
    else
      var rest, z := Readings(zones, reportTime, files, k - 1), zones[k - 1];
      if IsRead(z, reportTime, files) then rest[z.name := files[z.path]] else rest
  }

  lemma {:induction false} ReadingsAre(zones: seq<Zone>, reportTime: int, files: map<string, int>, k: nat, i: nat)
    requires DistinctNames(zones) && i < |zones| && k <= |zones|
    ensures var r := Readings(zones, reportTime, files, k);
            && (zones[i].name in r <==>
                  && i < k && zones[i].multiple != 0 && TruncMod(reportTime, zones[i].multiple) == 0
                  && zones[i].path != "" && zones[i].path in files)
            && (zones[i].name in r ==> r[zones[i].name] == files[zones[i].path])
  {
    if k > 0 { ReadingsAre(zones, reportTime, files, k - 1, i); }
  }

  method ReportThermalZoneData(zones: seq<Zone>, reportTime: int, files: map<string, int>)
    returns (typeTempMap: map<string, int>, multipleList: seq<int>)
    ensures multipleList == Counted(zones, |zones|)
    ensures typeTempMap == Readings(zones, reportTime, files, |zones|)
  {
    typeTempMap, multipleList := map[], [];
    for k := 0 to |zones|
      invariant multipleList == Counted(zones, k)
      invariant typeTempMap == Readings(zones, reportTime, files, k)
    {
      var multiple := zones[k].multiple;
      if multiple == 0 {
        continue;
      }
      var result := TruncMod(reportTime, multiple);
      multipleList := multipleList + [multiple];
      if result == 0 {
        if zones[k].path == "" {
          continue;
        }
        if zones[k].path !in files {
          continue;
        }
        typeTempMap := typeTempMap[zones[k].name := files[zones[k].path]];
      }
    }
  }

  function Largest(ms: seq<int>): (m: int)
    requires ms != []
    ensures m in ms && forall i | 0 <= i < |ms| :: ms[i] <= m
  {
    if |ms| == 1 then ms[0]
    else
      var rest := Largest(ms[..|ms| - 1]);
      if ms[|ms| - 1] > rest then ms[|ms| - 1] else rest
  }

  /** The count after a tick. */
  function NextCount(count: int, ms: seq<int>): int {
    if ms != [] && count + 1 == Largest(ms) then 0 else count + 1
  }

  class ThermalProtectorTimer {
    var reportTime: int
    var multipleList: seq<int>

    constructor ()
      ensures reportTime == 0 && multipleList == []
    {
      reportTime, multipleList := 0, [];
    }

    /** One expiry of the timer; the count does not move if the timer cannot be read. */
    method TimerProvisionCallback(readable: bool, zones: seq<Zone>, files: map<string, int>)
      returns (typeTempMap: map<string, int>)
      modifies this
      ensures !readable ==> reportTime == old(reportTime) && typeTempMap == map[]
      ensures readable ==> reportTime == NextCount(old(reportTime), Counted(zones, |zones|))
      ensures readable ==> typeTempMap == Readings(zones, old(reportTime) + 1, files, |zones|)
    {
      typeTempMap := map[];
      if !readable {
        return;
      }
      reportTime := reportTime + 1;
      typeTempMap, multipleList := ReportThermalZoneData(zones, reportTime, files);
      ResetCount();
    }

    method ResetCount()
      modifies this`reportTime
      ensures reportTime == NextCount(old(reportTime) - 1, multipleList)
    {
      if multipleList == [] {
        return;
      }
      var maxValue := multipleList[0];
      for i := 1 to |multipleList|
        invariant maxValue == Largest(multipleList[..i])
      {
        assert multipleList[..i + 1][..i] == multipleList[..i];
        if multipleList[i] > maxValue { maxValue := multipleList[i]; }
      }
      assert multipleList[..|multipleList|] == multipleList;
      if reportTime == maxValue {
        reportTime := 0;
      }
    }
  }

  // ----- repeated ticks -----

  /** The count after n ticks from the start. */
  function CountAfter(ms: seq<int>, n: nat): int { if n == 0 then 0 else NextCount(CountAfter(ms, n - 1), ms) }

  /** A zone of multiple m is due at tick n, counting from 1. */
  predicate DueAtTick(ms: seq<int>, m: int, n: nat)
    requires n >= 1
  {
    DueAtTime(CountAfter(ms, n - 1) + 1, m)
  }

  lemma {:induction false} CountIsRemainder(ms: seq<int>, n: nat)
    requires ms != [] && Largest(ms) >= 1
    ensures CountAfter(ms, n) == n % Largest(ms)
  {
    if n > 0 {
      CountIsRemainder(ms, n - 1);
      NextRemainder(n - 1, Largest(ms));
    }
  }

  lemma NextRemainder(n: nat, m: int)
    requires m >= 1
    ensures (n + 1) % m == if n % m + 1 == m then 0 else n % m + 1
  {
    RemainderOfSum(n / m, n % m + 1, m);
    Quotient(n, m);
  }

  lemma RemainderOfSum(q: int, r: int, m: int)
    requires m >= 1 && 0 <= r <= m
    ensures (q * m + r) % m == if r == m then 0 else r
  {
    if r == m {
      assert q * m + m == (q + 1) * m;
      RemainderUnique(q + 1, 0, m);
    } else {
      RemainderUnique(q, r, m);
    }
  }

  lemma RemainderUnique(q: int, r: int, m: int)
    requires 0 <= r < m
    ensures (q * m + r) % m == r
  {
    var x := q * m + r;
    Quotient(x, m);
    FactorUnique(x / m, q, x % m, r, m);
  }

  lemma FactorUnique(p: int, q: int, r: int, s: int, m: int)
    requires p * m + r == q * m + s && 0 <= r < m && 0 <= s < m
    ensures p == q && r == s
  {
    DifferenceOfProducts(p, q, m);
    if p > q { AtLeastOne(p - q, m); }
    if p < q { AtLeastOne(q - p, m); }
  }

  lemma DifferenceOfProducts(p: int, q: int, m: int)
    ensures p * m - q * m == (p - q) * m && q * m - p * m == (q - p) * m
  {}

  lemma AtLeastOne(k: int, m: int)
    requires k >= 1 && m > 0
    ensures k * m >= m
  {}

  // ----- how often a zone is read -----

  /** From a tick at report time r, a zone of multiple m is next due after this many ticks. */
  function Gap(r: int, m: int, largest: int): int
    requires m >= 1
  {
    if r + m <= largest then m else m + largest % m
  }

  /** Within one cycle the report time is the tick count plus one, and it starts over at one. */
  lemma TimeAhead(ms: seq<int>, n: nat, j: nat)
    requires ms != [] && Largest(ms) >= 1 && n >= 1
    ensures var r := CountAfter(ms, n - 1) + 1;
            && 1 <= r <= Largest(ms)
            && (r + j <= Largest(ms) ==> CountAfter(ms, n + j - 1) + 1 == r + j)
            && (Largest(ms) < r + j <= 2 * Largest(ms) ==> CountAfter(ms, n + j - 1) + 1 == r + j - Largest(ms))
  {
    var m, c := Largest(ms), n - 1;
    CountIsRemainder(ms, c);
    CountIsRemainder(ms, c + j);
    Quotient(c, m);
    var q, x := c / m, c % m + j;
    assert c + j == q * m + x;
    if x < m {
      RemainderUnique(q, x, m);
    } else if x < 2 * m {
      assert q * m + m == (q + 1) * m by { OneMore(q, m); }
      RemainderUnique(q + 1, x - m, m);
    }
  }

  lemma OneMore(q: int, m: int)
    ensures q * m + m == (q + 1) * m
  {}

  lemma MultiplePlus(r: int, j: int, m: int)
    requires m >= 1 && r % m == 0 && 0 <= j < m
    ensures (r + j) % m == j && (r + m) % m == 0
  {
    Quotient(r, m);
    RemainderUnique(r / m, j, m);
    OneMore(r / m, m);
    RemainderUnique(r / m + 1, 0, m);
  }

  /** The distance from the last due report time of a cycle to its end. */
  lemma RestOfCycle(r: int, m: int, largest: int)
    requires m >= 1 && r % m == 0 && r <= largest < r + m
    ensures largest % m == largest - r
  {
    MultiplePlus(r, largest - r, m);
  }

  lemma NotDueBetween(ms: seq<int>, m: int, n: nat, j: nat)
    requires ms != [] && 1 <= m <= Largest(ms) && n >= 1 && DueAtTick(ms, m, n)
    requires 0 < j < Gap(CountAfter(ms, n - 1) + 1, m, Largest(ms))
    ensures !DueAtTick(ms, m, n + j)
  {
    var r, largest := CountAfter(ms, n - 1) + 1, Largest(ms);
    TimeAhead(ms, n, j);
    if r + j <= largest {
      if r + m > largest { RestOfCycle(r, m, largest); }
      MultiplePlus(r, j, m);
    } else {
      RestOfCycle(r, m, largest);
      MultiplePlus(0, r + j - largest, m);
    }
  }

  /** Once due, a zone is next due after exactly its gap; the gap is at least its multiple and
      less than twice that. */
  lemma NextReading(ms: seq<int>, m: int, n: nat)
    requires ms != [] && 1 <= m <= Largest(ms) && n >= 1 && DueAtTick(ms, m, n)
    ensures var gap := Gap(CountAfter(ms, n - 1) + 1, m, Largest(ms));
            && m <= gap <= 2 * m - 1
            && DueAtTick(ms, m, n + gap)
            && forall k | n < k < n + gap :: !DueAtTick(ms, m, k)
  {
    var r, largest := CountAfter(ms, n - 1) + 1, Largest(ms);
    var gap := Gap(r, m, largest);
    TimeAhead(ms, n, gap);
    if r + m <= largest {
      MultiplePlus(r, 0, m);
    } else {
      RestOfCycle(r, m, largest);
      MultiplePlus(0, 0, m);
    }
    forall k | n < k < n + gap ensures !DueAtTick(ms, m, k) { NotDueBetween(ms, m, n, k - n); }
  }

  /** It is first due at the tick of its multiple. */
  lemma FirstReading(ms: seq<int>, m: int, n: nat)
    requires ms != [] && 1 <= m <= Largest(ms) && 1 <= n <= m
    ensures DueAtTick(ms, m, n) <==> n == m
  {
    TimeAhead(ms, 1, n - 1);
    if n < m { MultiplePlus(0, n, m); } else { MultiplePlus(0, 0, m); }
  }

  /** All gaps are the multiple itself exactly if the multiple divides the largest one: the count
      starts over at the largest multiple, not at the least common one. */
  lemma EvenlySpacedExactly(ms: seq<int>, m: int)
    requires ms != [] && 1 <= m <= Largest(ms)
    ensures (forall n | n >= 1 && DueAtTick(ms, m, n) :: Gap(CountAfter(ms, n - 1) + 1, m, Largest(ms)) == m)
       <==> Largest(ms) % m == 0
  {
    var largest := Largest(ms);
    if largest % m != 0 {
      var n := largest - largest % m;
      Quotient(largest, m);
      RemainderUnique(largest / m, 0, m);
      TimeAhead(ms, 1, n - 1);
      assert CountAfter(ms, n - 1) + 1 == n && n % m == 0;
      assert DueAtTick(ms, m, n) && Gap(n, m, largest) != m;
    }
  }

  lemma {:induction false} CountedHas(zones: seq<Zone>, k: nat, i: nat)
    requires i < k <= |zones| && zones[i].multiple != 0
    ensures zones[i].multiple in Counted(zones, k)
  {
    if i < k - 1 { CountedHas(zones, k - 1, i); }
  }

  predicate IsReadAtTick(z: Zone, ms: seq<int>, n: nat, files: map<string, int>)
    requires n >= 1
  {
    IsRead(z, CountAfter(ms, n - 1) + 1, files)
  }

  /** A zone with a positive multiple m that is read at tick n, and whose file stays readable, is
      read again after at least m and at most 2m - 1 ticks, and not before. */
  lemma ReadInTime(zones: seq<Zone>, i: nat, n: nat, files: map<string, int>) returns (next: nat)
    requires i < |zones| && zones[i].multiple >= 1 && n >= 1
    requires IsReadAtTick(zones[i], Counted(zones, |zones|), n, files)
    ensures n + zones[i].multiple <= next <= n + 2 * zones[i].multiple - 1
    ensures IsReadAtTick(zones[i], Counted(zones, |zones|), next, files)
    ensures forall k | n < k < next :: !IsReadAtTick(zones[i], Counted(zones, |zones|), k, files)
  {
    var ms, m := Counted(zones, |zones|), zones[i].multiple;
    CountedHas(zones, |zones|, i);
    assert DueAtTick(ms, m, n);
    NextReading(ms, m, n);
    next := n + Gap(CountAfter(ms, n - 1) + 1, m, Largest(ms));
    assert DueAtTick(ms, m, next);
    forall k | n < k < next ensures !IsReadAtTick(zones[i], ms, k, files) {
      assert !DueAtTick(ms, m, k);
    }
  }
}
