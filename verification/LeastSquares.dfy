/**
 The rise rate is the slope of the least-squares line: the samples as a vector, a line as a
 combination of the constant and the times, and the residual orthogonal to both.
 */
module LeastSquares {
  import opened Slope

  // ----- vectors -----

  function Dot(x: seq<real>, y: seq<real>): real
    requires |x| == |y|
  {
    if x == [] then 0.0 else Dot(x[..|x| - 1], y[..|y| - 1]) + x[|x| - 1] * y[|y| - 1]
  }

  /** y is a u + b t. */
  ghost predicate Combines(y: seq<real>, a: real, u: seq<real>, b: real, t: seq<real>) {
    |y| == |u| == |t| && forall i | 0 <= i < |y| :: y[i] == a * u[i] + b * t[i]
  }

  lemma {:induction false} DotSymmetric(x: seq<real>, y: seq<real>)
    requires |x| == |y|
    ensures Dot(x, y) == Dot(y, x)
  {
    if x != [] { DotSymmetric(x[..|x| - 1], y[..|y| - 1]); }
  }

  lemma Distribute(x: real, a: real, u: real, b: real, t: real)
    ensures x * (a * u + b * t) == a * (x * u) + b * (x * t)
  {}

  lemma Collect(a: real, d: real, p: real, b: real, e: real, q: real)
    ensures (a * d + b * e) + (a * p + b * q) == a * (d + p) + b * (e + q)
  {}

  lemma {:induction false} DotIsLinear(z: seq<real>, w: seq<real>, a: real, u: seq<real>, b: real, t: seq<real>,
                                       zu: real, zt: real)
    requires Combines(w, a, u, b, t) && |z| == |w| && zu == Dot(z, u) && zt == Dot(z, t)
    ensures Dot(z, w) == a * zu + b * zt
  {
    if z != [] {
      var n := |z| - 1;
      var du, dt := Dot(z[..n], u[..n]), Dot(z[..n], t[..n]);
      DotIsLinear(z[..n], w[..n], a, u[..n], b, t[..n], du, dt);
      Distribute(z[n], a, u[n], b, t[n]);
      Collect(a, du, z[n] * u[n], b, dt, z[n] * t[n]);
    }
  }

  lemma PositiveProduct(x: real, y: real)
    requires x > 0.0 && y > 0.0
    ensures x * y > 0.0
  {}

  lemma NegativeProduct(x: real, y: real)
    requires x < 0.0 && y < 0.0
    ensures x * y > 0.0
  {}

  lemma SquareSign(e: real, f: real)
    requires e == f
    ensures e * f >= 0.0
    ensures e != 0.0 ==> e * f > 0.0
  {
    if e > 0.0 { PositiveProduct(e, f); }
    if e < 0.0 { NegativeProduct(e, f); }
  }

  /** The product of a vector with itself is not negative ... */
  lemma {:induction false} DotSelf(x: seq<real>, y: seq<real>)
    requires x == y
    ensures Dot(x, y) >= 0.0
  {
    if x != [] {
      var n := |x| - 1;
      DotSelf(x[..n], y[..n]);
      SquareSign(x[n], y[n]);
    }
  }

  /** ... and positive unless the vector is zero. */
  lemma {:induction false} DotSelfPositive(x: seq<real>, y: seq<real>, i: nat)
    requires x == y && i < |x| && x[i] != 0.0
    ensures Dot(x, y) > 0.0
  {
    var n := |x| - 1;
    DotSelf(x[..n], y[..n]);
    SquareSign(x[n], y[n]);
    assert Dot(x, y) == Dot(x[..n], y[..n]) + x[n] * y[n];
    if i < n {
      DotSelfPositive(x[..n], y[..n], i);
      assert Dot(x, y) > 0.0;
    } else {
      assert x[n] * y[n] > 0.0;
    }
  }

  /** r is v - y. */
  ghost predicate Differs(r: seq<real>, v: seq<real>, y: seq<real>) {
    |r| == |v| == |y| && forall i | 0 <= i < |r| :: r[i] == v[i] - y[i]
  }

  lemma Minus(x: real, v: real, y: real)
    ensures x * (v - y) == x * v - x * y
  {}

  lemma {:induction false} DotOfDifference(x: seq<real>, r: seq<real>, v: seq<real>, y: seq<real>)
    requires Differs(r, v, y) && |x| == |r|
    ensures Dot(x, r) == Dot(x, v) - Dot(x, y)
  {
    if x != [] {
      var n := |x| - 1;
      DotOfDifference(x[..n], r[..n], v[..n], y[..n]);
      Minus(x[n], v[n], y[n]);
    }
  }

  /** Pythagoras: r' is r - d, and r is orthogonal to d. */
  lemma Pythagoras(r': seq<real>, r: seq<real>, d: seq<real>)
    requires Differs(r', r, d) && Dot(r, d) == 0.0
    ensures Dot(r', r') == Dot(r, r) + Dot(d, d)
  {
    DotOfDifference(r', r', r, d);
    DotSymmetric(r', r);
    DotSymmetric(r', d);
    DotOfDifference(r, r', r, d);
    DotOfDifference(d, r', r, d);
    DotSymmetric(d, r);
  }

  // ----- the best combination -----

  /** a u + b t. */
  function Combination(a: real, u: seq<real>, b: real, t: seq<real>): (y: seq<real>)
    requires |u| == |t|
    ensures |y| == |u|
  {
    seq(|u|, i requires 0 <= i < |u| => a * u[i] + b * t[i])
  }

  function Difference(v: seq<real>, y: seq<real>): (r: seq<real>)
    requires |v| == |y|
    ensures |r| == |v|
  {
    seq(|v|, i requires 0 <= i < |v| => v[i] - y[i])
  }

  /** How far a combination misses v, squared. */
  function SquaredError(v: seq<real>, u: seq<real>, t: seq<real>, a: real, b: real): real
    requires |v| == |u| == |t|
  {
    var r := Difference(v, Combination(a, u, b, t)); Dot(r, r)
  }

  lemma IsCombination(a: real, u: seq<real>, b: real, t: seq<real>)
    requires |u| == |t|
    ensures Combines(Combination(a, u, b, t), a, u, b, t)
  {}

  lemma IsDifference(v: seq<real>, y: seq<real>)
    requires |v| == |y|
    ensures Differs(Difference(v, y), v, y)
  {}

  ghost predicate Products(v: seq<real>, u: seq<real>, t: seq<real>, n: real, x: real, s: real, y: real, p: real) {
    && |v| == |u| == |t|
    && Dot(u, u) == n && Dot(u, t) == Dot(t, u) == x && Dot(t, t) == s && Dot(u, v) == y && Dot(t, v) == p
  }

  /** The normal equations for vectors with these products. */
  ghost predicate Solves(n: real, x: real, s: real, y: real, p: real, a: real, b: real) {
    a * n + b * x == y && a * x + b * s == p
  }

  /** The product of a vector with what a combination leaves of v. */
  lemma DotOfRest(z: seq<real>, r: seq<real>, v: seq<real>, w: seq<real>, a: real, u: seq<real>, b: real, t: seq<real>,
                  zu: real, zt: real)
    requires Differs(r, v, w) && Combines(w, a, u, b, t) && |z| == |r|
    requires Dot(z, u) == zu && Dot(z, t) == zt && Dot(z, v) == a * zu + b * zt
    ensures Dot(z, r) == 0.0
  {
    DotOfDifference(z, r, v, w);
    DotIsLinear(z, w, a, u, b, t, zu, zt);
  }

  /** What a solution leaves of v is orthogonal to u and t. */
  lemma Orthogonal(r: seq<real>, v: seq<real>, w: seq<real>, a: real, u: seq<real>, b: real, t: seq<real>,
                   n: real, x: real, s: real, y: real, p: real)
    requires Differs(r, v, w) && Combines(w, a, u, b, t)
    requires Products(v, u, t, n, x, s, y, p) && Solves(n, x, s, y, p, a, b)
    ensures Dot(u, r) == Dot(t, r) == 0.0
  {
    DotOfRest(u, r, v, w, a, u, b, t, n, x);
    DotOfRest(t, r, v, w, a, u, b, t, x, s);
  }

  lemma OrthogonalToBoth(r: seq<real>, d: seq<real>, a: real, u: seq<real>, b: real, t: seq<real>)
    requires Combines(d, a, u, b, t) && |r| == |d| && Dot(u, r) == Dot(t, r) == 0.0
    ensures Dot(r, d) == 0.0
  {
    DotSymmetric(r, u);
    DotSymmetric(r, t);
    DotIsLinear(r, d, a, u, b, t, 0.0, 0.0);
  }

  lemma Moved(a: real, b: real, a': real, b': real, v: real, u: real, t: real)
    ensures v - (a' * u + b' * t) == (v - (a * u + b * t)) - ((a' - a) * u + (b' - b) * t)
  {}

  lemma CombinationsDiffer(v: seq<real>, u: seq<real>, t: seq<real>, r': seq<real>, r: seq<real>, d: seq<real>,
                           a: real, b: real, a': real, b': real)
    requires |v| == |u| == |t|
    requires r == Difference(v, Combination(a, u, b, t)) && r' == Difference(v, Combination(a', u, b', t))
    requires d == Combination(a' - a, u, b' - b, t)
    ensures Differs(r', r, d)
  {
    forall i | 0 <= i < |v| ensures r'[i] == r[i] - d[i] { Moved(a, b, a', b', v[i], u[i], t[i]); }
  }

  /** What is left of v is orthogonal to u and t, which makes the combination the best. */
  ghost predicate LeavesOrthogonal(v: seq<real>, u: seq<real>, t: seq<real>, a: real, b: real) {
    && |v| == |u| == |t|
    && var r := Difference(v, Combination(a, u, b, t)); Dot(u, r) == Dot(t, r) == 0.0
  }

  /** Any other combination misses v by more, by as much as it differs from that one. */
  lemma ErrorOfOther(v: seq<real>, u: seq<real>, t: seq<real>, a: real, b: real, a': real, b': real, d: seq<real>)
    requires LeavesOrthogonal(v, u, t, a, b) && d == Combination(a' - a, u, b' - b, t)
    ensures SquaredError(v, u, t, a', b') == SquaredError(v, u, t, a, b) + Dot(d, d)
  {
    var r, r' := Difference(v, Combination(a, u, b, t)), Difference(v, Combination(a', u, b', t));
    IsCombination(a' - a, u, b' - b, t);
    OrthogonalToBoth(r, d, a' - a, u, b' - b, t);
    CombinationsDiffer(v, u, t, r', r, d, a, b, a', b');
    Pythagoras(r', r, d);
  }

  // ----- samples, times and lines -----

  function Temps(q: seq<int>): (v: seq<real>)
    ensures |v| == |q|
  {
    seq(|q|, i requires 0 <= i < |q| => q[i] as real)
  }

  function Times(n: nat): (t: seq<real>)
    ensures |t| == n
  {
    seq(n, i requires 0 <= i < n => Time(i) as real)
  }

  function Ones(n: nat): (u: seq<real>)
    ensures |u| == n
  {
    seq(n, i => 1.0)
  }

  /** The squared distances of the samples from the line with value a at time zero and slope b. */
  function LineError(q: seq<int>, a: real, b: real): real { SquaredError(Temps(q), Ones(|q|), Times(|q|), a, b) }

  /** No line misses the samples by less. */
  ghost predicate BestLine(q: seq<int>, a: real, b: real) {
    forall a', b' :: LineError(q, a, b) <= LineError(q, a', b')
  }

  // ----- the sums of the window are products -----

  lemma RealProduct(x: int, y: int)
    ensures (x * y) as real == x as real * y as real
  {}

  lemma {:induction false} TimeProducts(n: nat)
    ensures Dot(Ones(n), Ones(n)) == n as real
    ensures Dot(Ones(n), Times(n)) == TimeSum(n) as real
    ensures Dot(Times(n), Times(n)) == TimeSquaredSum(n) as real
  {
    if n > 0 {
      TimeProducts(n - 1);
      assert Ones(n)[..n - 1] == Ones(n - 1) && Times(n)[..n - 1] == Times(n - 1);
      RealProduct(Time(n - 1), Time(n - 1));
    }
  }

  lemma {:induction false} TempProducts(q: seq<int>)
    ensures Dot(Ones(|q|), Temps(q)) == TempSum(q, |q|) as real
    ensures Dot(Times(|q|), Temps(q)) == TimeTempSum(q, |q|) as real
  {
    if q != [] {
      var n := |q| - 1;
      TempProducts(q[..n]);
      SumsOfFront(q, n);
      assert Ones(n + 1)[..n] == Ones(n) && Times(n + 1)[..n] == Times(n) && Temps(q)[..n] == Temps(q[..n]);
      RealProduct(Time(n), q[n]);
    }
  }

  lemma {:induction false} SumsOfFront(q: seq<int>, m: nat)
    requires m < |q|
    ensures TempSum(q[..|q| - 1], m) == TempSum(q, m) && TimeTempSum(q[..|q| - 1], m) == TimeTempSum(q, m)
  {
    if m > 0 { SumsOfFront(q, m - 1); }
  }

  // ----- the normal equations -----

  lemma Quotient(x: real, n: real)
    requires n != 0.0
    ensures x / n * n == x
  {}

  lemma SlopeIsRatio(q: seq<int>, historyCount: nat, d: real, e: real) returns (b: real)
    requires |q| >= 2 && |q| >= historyCount && d == Denominator(|q|) as real && e == Numerator(q, |q|) as real
    ensures b * d == e && RiseRate(q, historyCount) == 60.0 * b
  {
    DenominatorClosed(|q|);
    b := e / d;
    Quotient(e, d);
  }

  lemma CentredMoment(n: int, s: int, x: int, d: int)
    requires d == n * s - x * x
    ensures d as real == n as real * s as real - x as real * x as real
  {
    RealProduct(n, s);
    RealProduct(x, x);
  }

  lemma CentredProduct(n: int, p: int, x: int, y: int, d: int)
    requires d == n * p - x * y
    ensures d as real == n as real * p as real - x as real * y as real
  {
    RealProduct(n, p);
    RealProduct(x, y);
  }

  /** The second normal equation on plain numbers. */
  lemma SecondEquation(n: real, x: real, s: real, y: real, p: real, a: real, b: real, d: real, e: real)
    requires n > 0.0 && a * n == y - b * x && b * d == e && d == n * s - x * x && e == n * p - x * y
    ensures a * x + b * s == p
  {
    Expand(n, x, s, a, b);
    Substitute(x, y, b);
    SubstituteMoment(n, x, s, b, d);
    SameFactor(n, a * x + b * s, p);
  }

  lemma Expand(n: real, x: real, s: real, a: real, b: real)
    ensures n * (a * x + b * s) == (a * n) * x + b * (n * s)
  {}

  lemma Substitute(x: real, y: real, b: real)
    ensures (y - b * x) * x == x * y - b * (x * x)
  {}

  lemma SubstituteMoment(n: real, x: real, s: real, b: real, d: real)
    requires d == n * s - x * x
    ensures b * d == b * (n * s) - b * (x * x)
  {}

  lemma SameFactor(n: real, x: real, y: real)
    requires n > 0.0 && n * x == n * y
    ensures x == y
  {
    Minus(n, x, y);
    if x > y { PositiveProduct(n, x - y); }
    if x < y {
      Minus(n, y, x);
      PositiveProduct(n, y - x);
    }
  }

  lemma MeanOf(a: real, n: real, x: real, y: real, b: real)
    requires n != 0.0 && a == (y - b * x) / n
    ensures a * n == y - b * x
  {
    Quotient(y - b * x, n);
  }

  lemma NumbersSolve(n: real, x: real, s: real, y: real, p: real, a: real, b: real, d: real, e: real)
    requires n > 0.0 && a == (y - b * x) / n && b * d == e && d == n * s - x * x && e == n * p - x * y
    ensures Solves(n, x, s, y, p, a, b)
  {
    MeanOf(a, n, x, y, b);
    SecondEquation(n, x, s, y, p, a, b, d, e);
  }

  ghost predicate AreRealSums(q: seq<int>, n: real, x: real, s: real, y: real, p: real) {
    && n == |q| as real && x == TimeSum(|q|) as real && s == TimeSquaredSum(|q|) as real
    && y == TempSum(q, |q|) as real && p == TimeTempSum(q, |q|) as real
  }

  lemma RealSums(q: seq<int>) returns (n: real, x: real, s: real, y: real, p: real)
    ensures AreRealSums(q, n, x, s, y, p)
  {
    n, x, s := |q| as real, TimeSum(|q|) as real, TimeSquaredSum(|q|) as real;
    y, p := TempSum(q, |q|) as real, TimeTempSum(q, |q|) as real;
  }

  lemma DenominatorParts(q: seq<int>, n: real, x: real, s: real, y: real, p: real, d: real)
    requires AreRealSums(q, n, x, s, y, p) && d == Denominator(|q|) as real
    ensures d == n * s - x * x
  {
    CentredMoment(|q|, TimeSquaredSum(|q|), TimeSum(|q|), Denominator(|q|));
  }

  lemma NumeratorParts(q: seq<int>, n: real, x: real, s: real, y: real, p: real, e: real)
    requires AreRealSums(q, n, x, s, y, p) && e == Numerator(q, |q|) as real
    ensures e == n * p - x * y
  {
    CentredProduct(|q|, TimeTempSum(q, |q|), TimeSum(|q|), TempSum(q, |q|), Numerator(q, |q|));
  }

  lemma SlopeOfSums(q: seq<int>, historyCount: nat, n: real, x: real, s: real, y: real, p: real)
    returns (b: real, d: real, e: real)
    requires |q| >= 2 && |q| >= historyCount && AreRealSums(q, n, x, s, y, p)
    ensures b * d == e && d == n * s - x * x && e == n * p - x * y && RiseRate(q, historyCount) == 60.0 * b
  {
    d, e := Denominator(|q|) as real, Numerator(q, |q|) as real;
    b := SlopeIsRatio(q, historyCount, d, e);
    DenominatorParts(q, n, x, s, y, p, d);
    NumeratorParts(q, n, x, s, y, p, e);
  }

  lemma SumsAreProducts(q: seq<int>, n: real, x: real, s: real, y: real, p: real)
    requires AreRealSums(q, n, x, s, y, p)
    ensures Products(Temps(q), Ones(|q|), Times(|q|), n, x, s, y, p)
  {
    TimeProducts(|q|);
    TempProducts(q);
    DotSymmetric(Times(|q|), Ones(|q|));
  }

  lemma SolutionLeavesOrthogonal(q: seq<int>, a: real, b: real, n: real, x: real, s: real, y: real, p: real)
    requires AreRealSums(q, n, x, s, y, p) && Solves(n, x, s, y, p, a, b)
    ensures LeavesOrthogonal(Temps(q), Ones(|q|), Times(|q|), a, b)
  {
    var v, u, t := Temps(q), Ones(|q|), Times(|q|);
    var w := Combination(a, u, b, t);
    SumsAreProducts(q, n, x, s, y, p);
    IsCombination(a, u, b, t);
    IsDifference(v, w);
    Orthogonal(Difference(v, w), v, w, a, u, b, t, n, x, s, y, p);
  }

  /** The line of the rate leaves what is orthogonal to the constant and to the times. */
  lemma NormalEquations(q: seq<int>, historyCount: nat) returns (a: real, b: real)
    requires |q| >= 2 && |q| >= historyCount
    ensures LeavesOrthogonal(Temps(q), Ones(|q|), Times(|q|), a, b) && RiseRate(q, historyCount) == 60.0 * b
  {
    var n, x, s, y, p := RealSums(q);
    var d, e;
    b, d, e := SlopeOfSums(q, historyCount, n, x, s, y, p);
    a := (y - b * x) / n;
    NumbersSolve(n, x, s, y, p, a, b, d, e);
    SolutionLeavesOrthogonal(q, a, b, n, x, s, y, p);
  }

  // ----- the best line -----

  /** Two different lines differ at one of the first two samples. */
  lemma LineIsNotZero(a: real, b: real, n: nat)
    requires n >= 2 && (a != 0.0 || b != 0.0)
    ensures exists i :: 0 <= i < n && Combination(a, Ones(n), b, Times(n))[i] != 0.0
  {
    assert Combination(a, Ones(n), b, Times(n))[0] == a * 1.0 + b * 0.0;
    assert Combination(a, Ones(n), b, Times(n))[1] == a * 1.0 + b * -5.0;
  }

  lemma OtherLineIsWorse(q: seq<int>, a: real, b: real, a': real, b': real)
    requires LeavesOrthogonal(Temps(q), Ones(|q|), Times(|q|), a, b)
    ensures LineError(q, a, b) <= LineError(q, a', b')
    ensures |q| >= 2 && (a' != a || b' != b) ==> LineError(q, a, b) < LineError(q, a', b')
  {
    var d := Combination(a' - a, Ones(|q|), b' - b, Times(|q|));
    ErrorOfOther(Temps(q), Ones(|q|), Times(|q|), a, b, a', b', d);
    DotSelf(d, d);
    if |q| >= 2 && (a' != a || b' != b) {
      LineIsNotZero(a' - a, b' - b, |q|);
      var i :| 0 <= i < |q| && d[i] != 0.0;
      DotSelfPositive(d, d, i);
    }
  }

  lemma OnlyBestLine(q: seq<int>, a: real, b: real, a': real, b': real)
    requires |q| >= 2 && LeavesOrthogonal(Temps(q), Ones(|q|), Times(|q|), a, b)
    ensures BestLine(q, a', b') <==> a' == a && b' == b
  {
    forall x, y ensures LineError(q, a, b) <= LineError(q, x, y) { OtherLineIsWorse(q, a, b, x, y); }
    if BestLine(q, a', b') {
      OtherLineIsWorse(q, a, b, a', b');
      assert LineError(q, a', b') <= LineError(q, a, b);
    }
  }

  /** The best line has this slope. */
  ghost predicate BestSlope(q: seq<int>, b: real) { exists a :: BestLine(q, a, b) }

  lemma OnlyBestSlope(q: seq<int>, x: real, y: real, b: real)
    requires |q| >= 2 && LeavesOrthogonal(Temps(q), Ones(|q|), Times(|q|), x, y)
    ensures BestSlope(q, b) <==> b == y
  {
    OnlyBestLine(q, x, y, x, b);
    if BestSlope(q, b) {
      var a :| BestLine(q, a, b);
      OnlyBestLine(q, x, y, a, b);
    }
  }

  /** The rate of a full window is sixty times the slope of the one line that misses the samples
      least, in the sum of the squared errors. */
  lemma RiseRateIsLeastSquares(q: seq<int>, historyCount: nat, b: real)
    requires |q| >= 2 && |q| >= historyCount
    ensures BestSlope(q, b) <==> RiseRate(q, historyCount) == 60.0 * b
  {
    var x, y := NormalEquations(q, historyCount);
    OnlyBestSlope(q, x, y, b);
  }
}
