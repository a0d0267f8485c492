/**
 The rise rate: the least-squares slope of a window of temperatures, newest first, sampled every
 five seconds and scaled to a minute. The source accumulates it in 32-bit integers and divides
 doubles; here the sums are integers, whose range is stated and proved, and the rate is a real.
 */
module Slope {

  const SEC_MIN_NUM: int := 60
  const THERMAL_UPDATE_PERIOD: int := -5

  function Time(i: nat): int { i * THERMAL_UPDATE_PERIOD }

  function TimeSum(m: nat): int { if m == 0 then 0 else TimeSum(m - 1) + Time(m - 1) }

  function TimeSquaredSum(m: nat): int { if m == 0 then 0 else TimeSquaredSum(m - 1) + Time(m - 1) * Time(m - 1) }

  function TempSum(q: seq<int>, m: nat): int
    requires m <= |q|
  {
    if m == 0 then 0 else TempSum(q, m - 1) + q[m - 1]
  }

  function TimeTempSum(q: seq<int>, m: nat): int
    requires m <= |q|
  {
    if m == 0 then 0 else TimeTempSum(q, m - 1) + Time(m - 1) * q[m - 1]
  }

  function Denominator(n: nat): int { n * TimeSquaredSum(n) - TimeSum(n) * TimeSum(n) }

  function Numerator(q: seq<int>, n: nat): int
    requires n <= |q|
  {
    n * TimeTempSum(q, n) - TimeSum(n) * TempSum(q, n)
  }

  function RiseRate(q: seq<int>, historyCount: nat): real {
    if |q| < historyCount || Denominator(|q|) == 0 then 0.0
    else Numerator(q, |q|) as real / Denominator(|q|) as real * SEC_MIN_NUM as real
  }

  method GetThermalRiseRate(tempQueue: seq<int>, historyCount: nat) returns (rate: real)
    ensures rate == RiseRate(tempQueue, historyCount)
  {
    if |tempQueue| < historyCount {
      return 0.0;
    }
    var tempQueueSize := |tempQueue|;
    var timeSum, tempSum, timeSquaredSum, timeTempMultiplySum := 0, 0, 0, 0;
    for timeIndex := 0 to tempQueueSize
      invariant timeSum == TimeSum(timeIndex) && timeSquaredSum == TimeSquaredSum(timeIndex)
      invariant tempSum == TempSum(tempQueue, timeIndex)
      invariant timeTempMultiplySum == TimeTempSum(tempQueue, timeIndex)
    {
      var time := timeIndex * THERMAL_UPDATE_PERIOD;
      timeSum := timeSum + time;
      tempSum := tempSum + tempQueue[timeIndex];
      timeSquaredSum := timeSquaredSum + time * time;
      timeTempMultiplySum := timeTempMultiplySum + time * tempQueue[timeIndex];
    }
    var calcTime := tempQueueSize * timeSquaredSum - timeSum * timeSum;
    if calcTime == 0 {
      return 0.0;
    }
    var slopeRate := (tempQueueSize * timeTempMultiplySum - timeSum * tempSum) as real / calcTime as real;
    return slopeRate * SEC_MIN_NUM as real;
  }

  lemma Scale(a: nat, b: int, c: int)
    requires b <= c
    ensures a * b <= a * c
  {}

  // ----- the denominator -----

  lemma {:induction false} TimeSumClosed(n: nat)
    ensures 2 * TimeSum(n) == -5 * n * (n - 1)
  {
    if n > 0 { TimeSumClosed(n - 1); }
  }

  lemma SquaresStep(n: int)
    ensures (n - 2) * (n - 1) * (2 * (n - 1) - 1) + 6 * ((n - 1) * (n - 1)) == (n - 1) * n * (2 * n - 1)
  {}

  lemma TimeSquared(i: nat)
    ensures Time(i) * Time(i) == 25 * (i * i)
  {}

  lemma {:induction false} TimeSquaredSumClosed(n: nat)
    ensures 6 * TimeSquaredSum(n) == 25 * ((n - 1) * n * (2 * n - 1))
  {
    if n > 0 {
      TimeSquaredSumClosed(n - 1);
      TimeSquared(n - 1);
      SquaresStep(n);
      Combined(TimeSquaredSum(n - 1), Time(n - 1) * Time(n - 1), (n - 2) * (n - 1) * (2 * (n - 1) - 1),
               (n - 1) * (n - 1), (n - 1) * n * (2 * n - 1));
    }
  }

  lemma Combined(sum: int, square: int, before: int, i: int, after: int)
    requires 6 * sum == 25 * before && square == 25 * i && before + 6 * i == after
    ensures 6 * (sum + square) == 25 * after
  {}

  lemma DenominatorAlgebra(n: int, t: int, s: int)
    requires 2 * t == -5 * n * (n - 1)
    requires 6 * s == 25 * ((n - 1) * n * (2 * n - 1))
    ensures 12 * (n * s - t * t) == 25 * (n * n * (n * n - 1))
  {}

  lemma PositiveSquares(n: nat)
    requires n >= 2
    ensures n * n * (n * n - 1) > 0
  {}

  /** The denominator is 25 n^2 (n^2 - 1) / 12: positive for every window of at least two. */
  lemma DenominatorClosed(n: nat)
    ensures 12 * Denominator(n) == 25 * (n * n * (n * n - 1))
    ensures n >= 2 ==> Denominator(n) > 0
    ensures n < 2 ==> Denominator(n) == 0
  {
    TimeSumClosed(n);
    TimeSquaredSumClosed(n);
    DenominatorAlgebra(n, TimeSum(n), TimeSquaredSum(n));
    if n >= 2 { PositiveSquares(n); }
  }

  // ----- what the slope says -----

  lemma LinearStep(a: int, b: int, m: int, t: int, x: int, s: int, y: int, p: int, v: int)
    requires 5 * y == 5 * (a * m) - b * x && 5 * p == 5 * (a * x) - b * s
    requires 5 * v == 5 * a - b * t
    ensures 5 * (y + v) == 5 * (a * (m + 1)) - b * (x + t)
    ensures 5 * (p + t * v) == 5 * (a * (x + t)) - b * (s + t * t)
  {}

  lemma {:induction false} LinearSums(q: seq<int>, a: int, b: int, m: nat)
    requires m <= |q| && forall i | 0 <= i < |q| :: q[i] == a + b * i
    ensures 5 * TempSum(q, m) == 5 * (a * m) - b * TimeSum(m)
    ensures 5 * TimeTempSum(q, m) == 5 * (a * TimeSum(m)) - b * TimeSquaredSum(m)
  {
    if m > 0 {
      LinearSums(q, a, b, m - 1);
      LinearSample(q[m - 1], a, b, m - 1);
      LinearStep(a, b, m - 1, Time(m - 1), TimeSum(m - 1), TimeSquaredSum(m - 1),
                 TempSum(q, m - 1), TimeTempSum(q, m - 1), q[m - 1]);
    }
  }

  lemma LinearSample(v: int, a: int, b: int, i: nat)
    requires v == a + b * i
    ensures 5 * v == 5 * a - b * Time(i)
  {}

  lemma LinearNumerator(n: int, a: int, b: int, t: int, s: int, y: int, p: int)
    requires 5 * y == 5 * (a * n) - b * t && 5 * p == 5 * (a * t) - b * s
    ensures 5 * (n * p - t * y) == -(b * (n * s - t * t))
  {}

  /** On a straight line the slope is exact: a window that falls by b with every step back in
      time, five seconds long, rises at -12 b a minute. Constant windows (b = 0) give zero. */
  lemma SlopeExactOnLines(q: seq<int>, a: int, b: int, historyCount: nat)
    requires |q| >= 2 && |q| >= historyCount && forall i | 0 <= i < |q| :: q[i] == a + b * i
    ensures RiseRate(q, historyCount) == -12.0 * b as real
  {
    var n := |q|;
    DenominatorClosed(n);
    LinearSums(q, a, b, n);
    LinearNumerator(n, a, b, TimeSum(n), TimeSquaredSum(n), TempSum(q, n), TimeTempSum(q, n));
    RatioOf(Numerator(q, n), b, Denominator(n));
  }

  lemma RatioOf(x: int, b: int, d: int)
    requires d > 0 && 5 * x == -(b * d)
    ensures x as real / d as real * 60.0 == -12.0 * b as real
  {}

  /** A window that is not full has no rate, and neither has a single sample. */
  lemma ShortWindowHasNoRate(q: seq<int>, historyCount: nat)
    requires |q| < historyCount || |q| < 2
    ensures RiseRate(q, historyCount) == 0.0
  {
    DenominatorClosed(|q|);
  }

  /** The mixed terms that the m-th sample adds to the numerator. */
  function Cross(q: seq<int>, m: nat, j: nat): int
    requires j <= m < |q|
  {
    if j == 0 then 0 else Cross(q, m, j - 1) + (Time(j - 1) - Time(m)) * (q[j - 1] - q[m])
  }

  lemma CrossStep(j: nat, t: int, y: int, t': int, y': int, c: int, p: int, x: int, z: int)
    requires c == p - t' * z - y' * x + j * (t' * y')
    ensures c + (t - t') * (y - y')
         == (p + t * y) - t' * (z + y) - y' * (x + t) + (j + 1) * (t' * y')
  {}

  lemma {:induction false} CrossExpanded(q: seq<int>, m: nat, j: nat)
    requires j <= m < |q|
    ensures Cross(q, m, j)
         == TimeTempSum(q, j) - Time(m) * TempSum(q, j) - q[m] * TimeSum(j) + j * (Time(m) * q[m])
  {
    if j > 0 {
      CrossExpanded(q, m, j - 1);
      CrossStep(j - 1, Time(j - 1), q[j - 1], Time(m), q[m], Cross(q, m, j - 1),
                TimeTempSum(q, j - 1), TimeSum(j - 1), TempSum(q, j - 1));
    }
  }

  lemma {:induction false} CrossNonNegative(q: seq<int>, m: nat, j: nat)
    requires j <= m < |q| && forall i, k | 0 <= i <= k < |q| :: q[i] >= q[k]
    ensures Cross(q, m, j) >= 0
  {
    if j > 0 {
      CrossNonNegative(q, m, j - 1);
      Scale(Time(j - 1) - Time(m), 0, q[j - 1] - q[m]);
    }
  }

  lemma NumeratorGrows(m: nat, p: int, x: int, y: int, t: int, v: int, c: int)
    requires c == p - t * y - v * x + m * (t * v)
    ensures (m + 1) * (p + t * v) - (x + t) * (y + v) == (m * p - x * y) + c
  {}

  lemma NumeratorStep(q: seq<int>, m: nat)
    requires m < |q|
    ensures Numerator(q, m + 1) == Numerator(q, m) + Cross(q, m, m)
  {
    CrossExpanded(q, m, m);
    NumeratorGrows(m, TimeTempSum(q, m), TimeSum(m), TempSum(q, m), Time(m), q[m], Cross(q, m, m));
  }

  /** Chebyshev's sum inequality for the window. */
  lemma {:induction false} NumeratorNonNegative(q: seq<int>, n: nat)
    requires n <= |q| && forall i, k | 0 <= i <= k < |q| :: q[i] >= q[k]
    ensures Numerator(q, n) >= 0
  {
    if n > 0 {
      NumeratorNonNegative(q, n - 1);
      CrossNonNegative(q, n - 1, n - 1);
      NumeratorStep(q, n - 1);
    }
  }

  /** If the temperature never fell across the window, the rate is not negative. */
  lemma RisingWindowHasNonNegativeRate(q: seq<int>, historyCount: nat)
    requires forall i, k | 0 <= i <= k < |q| :: q[i] >= q[k]
    ensures RiseRate(q, historyCount) >= 0.0
  {
    NumeratorNonNegative(q, |q|);
    DenominatorClosed(|q|);
    if |q| >= historyCount && |q| >= 2 {
      assert Numerator(q, |q|) as real / Denominator(|q|) as real >= 0.0;
    }
  }

  // ----- 32-bit range -----

  predicate Fits(x: int) { -0x8000_0000 <= x < 0x8000_0000 }

  /** Every value the 32-bit computation goes through is representable. */
  ghost predicate Int32Safe(q: seq<int>) {
    var n := |q|;
    && Fits(n)
    && (forall i | 0 <= i < n :: Fits(Time(i)) && Fits(Time(i) * Time(i)) && Fits(Time(i) * q[i]))
    && (forall m | 0 <= m <= n ::
          Fits(TimeSum(m)) && Fits(TempSum(q, m)) && Fits(TimeSquaredSum(m)) && Fits(TimeTempSum(q, m)))
    && Fits(n * TimeSquaredSum(n)) && Fits(TimeSum(n) * TimeSum(n)) && Fits(Denominator(n))
    && Fits(n * TimeTempSum(q, n)) && Fits(TimeSum(n) * TempSum(q, n)) && Fits(Numerator(q, n))
  }

  const MAX_TEMP: int := 100000

  ghost predicate Bounded(q: seq<int>) {
    forall i | 0 <= i < |q| :: -MAX_TEMP <= q[i] <= MAX_TEMP
  }

  lemma ProductBound(a: int, b: int, m: nat, k: nat)
    requires 0 - m <= a <= m && 0 - k <= b <= k
    ensures 0 - m * k <= a * b <= m * k
  {}

  lemma {:induction false} SumBounds(q: seq<int>, m: nat)
    requires m <= |q| && Bounded(q)
    ensures -100000 * m <= TempSum(q, m) <= 100000 * m
    ensures TimeSum(m) <= 0
    ensures 100000 * TimeSum(m) <= TimeTempSum(q, m) <= -100000 * TimeSum(m)
  {
    if m > 0 {
      SumBounds(q, m - 1);
      ProductBound(Time(m - 1), q[m - 1], -Time(m - 1), MAX_TEMP);
    }
  }

  lemma TimeBounds(m: nat)
    requires m <= 20
    ensures -950 <= TimeSum(m) <= 0
    ensures 0 <= TimeSquaredSum(m) <= 61750
  {
    TimeSumClosed(m);
    TimeSquaredSumClosed(m);
    TimeAlgebra(m, TimeSum(m), TimeSquaredSum(m));
  }

  lemma TimeAlgebra(m: nat, t: int, s: int)
    requires m <= 20 && 2 * t == -5 * m * (m - 1) && 6 * s == 25 * ((m - 1) * m * (2 * m - 1))
    ensures -950 <= t <= 0 && 0 <= s <= 61750
  {
    if m > 0 {
      var a := m * (m - 1);
      Scale(m, m - 1, 19);
      Scale(m, 0, m - 1);
      Scale(a, 2 * m - 1, 39);
      Scale(a, 0, 2 * m - 1);
      assert (m - 1) * m * (2 * m - 1) == a * (2 * m - 1);
      assert -5 * m * (m - 1) == -5 * a;
    }
  }

  /** The numerator regrouped: each temperature against its centred weight. */
  function Centred(q: seq<int>, n: nat, m: nat): int
    requires m <= |q|
  {
    if m == 0 then 0 else Centred(q, n, m - 1) + (n * Time(m - 1) - TimeSum(n)) * q[m - 1]
  }

  lemma CentredStep(n: int, t: int, y: int, x: int, p: int, z: int)
    ensures n * (p + t * y) - x * (z + y) == (n * p - x * z) + (n * t - x) * y
  {}

  lemma {:induction false} CentredExpanded(q: seq<int>, n: nat, m: nat)
    requires m <= |q|
    ensures Centred(q, n, m) == n * TimeTempSum(q, m) - TimeSum(n) * TempSum(q, m)
  {
    if m > 0 {
      CentredExpanded(q, n, m - 1);
      CentredStep(n, Time(m - 1), q[m - 1], TimeSum(n), TimeTempSum(q, m - 1), TempSum(q, m - 1));
    }
  }

  lemma WeightBound(n: nat, i: nat)
    requires i < n <= 20
    ensures -950 <= n * Time(i) - TimeSum(n) <= 950
  {
    TimeSumClosed(n);
    WeightAlgebra(n, i, TimeSum(n));
  }

  lemma WeightAlgebra(n: nat, i: nat, x: int)
    requires i < n <= 20 && 2 * x == -5 * n * (n - 1)
    ensures -950 <= n * (i * -5) - x <= 950
  {
    Scale(n, i, n - 1);
    Scale(n, n - 1, 19);
    assert n * (i * -5) == -5 * (n * i);
  }

  lemma {:induction false} CentredBound(q: seq<int>, n: nat, m: nat)
    requires m <= n == |q| <= 20 && Bounded(q)
    ensures -95000000 * m <= Centred(q, n, m) <= 95000000 * m
  {
    if m > 0 {
      CentredBound(q, n, m - 1);
      WeightBound(n, m - 1);
      ProductBound(n * Time(m - 1) - TimeSum(n), q[m - 1], 950, MAX_TEMP);
    }
  }

  /** With at most twenty samples of at most 100 degrees (in thousandths) nothing overflows. The
      final difference needs its centred form: the bounds of its two products add up to more
      than 32 bits hold. */
  lemma WindowOfTwentyFits(q: seq<int>)
    requires |q| <= 20 && Bounded(q)
    ensures Int32Safe(q)
  {
    var n := |q|;
    forall i | 0 <= i < n ensures Fits(Time(i)) && Fits(Time(i) * Time(i)) && Fits(Time(i) * q[i]) {
      ProductBound(Time(i), Time(i), 95, 95);
      ProductBound(Time(i), q[i], 95, MAX_TEMP);
    }
    forall m | 0 <= m <= n
      ensures Fits(TimeSum(m)) && Fits(TempSum(q, m)) && Fits(TimeSquaredSum(m)) && Fits(TimeTempSum(q, m))
    {
      SumBounds(q, m);
      TimeBounds(m);
    }
    SumBounds(q, n);
    TimeBounds(n);
    CentredExpanded(q, n, n);
    CentredBound(q, n, n);
    FinalProducts(n, TimeSum(n), TimeSquaredSum(n), TempSum(q, n), TimeTempSum(q, n));
  }

  lemma FinalProducts(n: nat, t: int, s: int, y: int, p: int)
    requires n <= 20 && -950 <= t <= 0 && 0 <= s <= 61750
    requires -2000000 <= y <= 2000000 && -95000000 <= p <= 95000000
    ensures Fits(n * s) && Fits(t * t) && Fits(n * s - t * t) && Fits(n * p) && Fits(t * y)
  {
    ProductBound(n, s, 20, 61750);
    ProductBound(t, t, 950, 950);
    ProductBound(n, p, 20, 95000000);
    ProductBound(t, y, 950, 2000000);
  }

  function Constant(n: nat): (q: seq<int>)
    ensures |q| == n && forall i | 0 <= i < n :: q[i] == MAX_TEMP
  {
    seq(n, i => MAX_TEMP)
  }

  lemma {:induction false} LongTimeSum(n: nat)
    requires n >= 21
    ensures TimeSum(n) <= -1050
  {
    if n == 21 { TimeSumClosed(21); } else { LongTimeSum(n - 1); }
  }

  /** Every longer window overflows: a constant one at 100 degrees does. */
  lemma LongWindowOverflows(n: nat)
    requires n >= 21
    ensures Bounded(Constant(n)) && !Int32Safe(Constant(n))
  {
    var q := Constant(n);
    ConstantTimeTempSum(q, n);
    LongTimeSum(n);
    var x := -TimeTempSum(q, n);
    assert x >= 105000000;
    Scale(n, 105000000, x);
    assert n * TimeTempSum(q, n) == -(n * x);
    assert !Fits(n * TimeTempSum(q, n));
  }

  /** So twenty is the exact limit. */
  lemma SafeUpToTwentyExactly(n: nat)
    ensures (forall q | |q| == n && Bounded(q) :: Int32Safe(q)) <==> n <= 20
  {
    if n <= 20 {
      forall q | |q| == n && Bounded(q) ensures Int32Safe(q) { WindowOfTwentyFits(q); }
    } else {
      LongWindowOverflows(n);
    }
  }

  lemma {:induction false} ConstantTimeTempSum(q: seq<int>, m: nat)
    requires m <= |q| && forall i | 0 <= i < |q| :: q[i] == MAX_TEMP
    ensures TimeTempSum(q, m) == MAX_TEMP * TimeSum(m)
  {
    if m > 0 { ConstantTimeTempSum(q, m - 1); }
  }
}
