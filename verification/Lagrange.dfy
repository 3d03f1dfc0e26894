/** Lagrange interpolation at zero. */
module Lagrange {
  import opened Arithmetic
  import opened PrimeField
  import opened Polynomials

  ghost predicate Distinct(xs: seq<int>, p: int) {
    forall i, j :: 0 <= i < j < |xs| ==> !Cong(xs[i], xs[j], p)
  }

  /** The product of x_j over j < k, j != i. */
  function Num(xs: seq<int>, i: nat, k: nat): int
    requires i < |xs| && k <= |xs|
  {
    if k == 0 then 1
    else if k - 1 == i then Num(xs, i, k - 1)
    else Num(xs, i, k - 1) * xs[k - 1]
  }

  /** The product of x_j - x_i over j < k, j != i. */
  function Den(xs: seq<int>, i: nat, k: nat): int
    requires i < |xs| && k <= |xs|
  {
    if k == 0 then 1
    else if k - 1 == i then Den(xs, i, k - 1)
    else Den(xs, i, k - 1) * (xs[k - 1] - xs[i])
  }

  lemma {:induction false} DifferenceNonZero(a: int, b: int, p: int)
    ensures Cong(a - b, 0, p) <==> Cong(a, b, p)
    ensures Cong(a, b, p) <==> Cong(b, a, p)
  {
    if Cong(a - b, 0, p) {
      var k :| Differ(a - b, 0, p, k);
      CongBy(a, b, p, k);
    }
    if Cong(a, b, p) {
      var k :| Differ(a, b, p, k);
      CongBy(a - b, 0, p, k);
      CongSymmetric(a, b, p);
    }
    if Cong(b, a, p) {
      CongSymmetric(b, a, p);
    }
  }

  lemma {:induction false} ProductZero(d: int, e: int, p: int)
    requires Prime(p)
    ensures Cong(d * e, 0, p) <==> Cong(d, 0, p) || Cong(e, 0, p)
  {
    if Cong(d, 0, p) {
      CongScale(e, d, 0, p);
    } else if Cong(e, 0, p) {
      CongScale(d, e, 0, p);
    } else if Cong(d * e, 0, p) {
      NoZeroDivisors(d, e, p);
    }
  }

  lemma {:induction false} OneNotZero(p: int)
    requires Prime(p)
    ensures !Cong(1, 0, p)
  {
    CongIffMod(1, 0, p);
    ModIs(1, p, 0, 1);
    ModIs(0, p, 0, 0);
  }

  /** A denominator vanishes exactly when another point coincides with point `i`. */
  lemma {:induction false} DenominatorZero(xs: seq<int>, i: nat, k: nat, p: int)
    requires Prime(p) && i < |xs| && k <= |xs|
    ensures Cong(Den(xs, i, k), 0, p) <==> exists j :: 0 <= j < k && j != i && Cong(xs[j], xs[i], p)
  {
    if k == 0 {
      OneNotZero(p);
    } else {
      DenominatorZero(xs, i, k - 1, p);
      if k - 1 != i {
        DifferenceNonZero(xs[k - 1], xs[i], p);
        ProductZero(Den(xs, i, k - 1), xs[k - 1] - xs[i], p);
      }
    }
  }

  lemma {:induction false} DistinctDenominator(xs: seq<int>, i: nat, p: int)
    requires Prime(p) && Distinct(xs, p) && i < |xs|
    ensures !Cong(Den(xs, i, |xs|), 0, p)
  {
    DenominatorZero(xs, i, |xs|, p);
    forall j | 0 <= j < |xs| && j != i
      ensures !Cong(xs[j], xs[i], p)
    {
      DifferenceNonZero(xs[j], xs[i], p);
    }
  }

  /** The Lagrange coefficient of point `i`: the quotient of the two products. */
  function Lambda(xs: seq<int>, i: nat, p: int): (l: int)
    requires Prime(p) && Distinct(xs, p) && i < |xs|
    ensures IsScalar(l, p) && Cong(Den(xs, i, |xs|) * l, Num(xs, i, |xs|), p)
  {
    DistinctDenominator(xs, i, p);
    Quotient(Num(xs, i, |xs|), Den(xs, i, |xs|), p)
  }

  function Quotient(n: int, d: int, p: int): (l: int)
    requires Prime(p) && !Cong(d, 0, p)
    ensures IsScalar(l, p) && Cong(d * l, n, p)
  {
    var d' := d % p;
    CongMod(d, p);
    assert d' != 0;
    var l := Div(n, d', p).value;
    CongScale(l, d, d', p);
    CongTransitive(d * l, d' * l, n, p);
    l
  }

  lemma {:induction false} CancelNonZero(c: int, a: int, b: int, p: int)
    requires Prime(p) && !Cong(c, 0, p) && Cong(c * a, c * b, p)
    ensures Cong(a, b, p)
  {
    DifferenceNonZero(c * a, c * b, p);
    assert c * (a - b) == c * a - c * b;
    NoZeroDivisors(c, a - b, p);
    DifferenceNonZero(a, b, p);
  }

  // ---- Leaving out one point ----

  /** How a coefficient changes when point `x` is dropped. */
  lemma {:induction false} DropPoint(x: int, xi: int, n: int, d: int, l: int, n': int, d': int, l': int, p: int)
    requires Prime(p) && !Cong(d', 0, p)
    requires n == n' * x && d == d' * (x - xi)
    requires Cong(d * l, n, p) && Cong(d' * l', n', p)
    ensures Cong(x * l', (x - xi) * l, p)
  {
    CongScale(x, d' * l', n', p);
    assert d' * (x * l') == x * (d' * l');
    assert d' * ((x - xi) * l) == d * l;
    CongSymmetric(d * l, n, p);
    CongTransitive(d' * (x * l'), n, d' * ((x - xi) * l), p);
    CancelNonZero(d', x * l', (x - xi) * l, p);
  }

  lemma {:induction false} Swap(a: int, b: int, c: int)
    ensures a * b * c == a * c * b
  {
  }

  lemma {:induction false} ProductsOfPrefix(xs: seq<int>, i: nat, k: nat)
    requires i < |xs| - 1 && k <= |xs| - 1
    ensures Num(xs[..|xs| - 1], i, k) == Num(xs, i, k)
    ensures Den(xs[..|xs| - 1], i, k) == Den(xs, i, k)
  {
    if k > 0 {
      ProductsOfPrefix(xs, i, k - 1);
    }
  }

  lemma {:induction false} ProductsOfSuffix(xs: seq<int>, i: nat, k: nat)
    requires 1 <= i < |xs| && 1 <= k <= |xs|
    ensures Num(xs, i, k) == Num(xs[1..], i - 1, k - 1) * xs[0]
    ensures Den(xs, i, k) == Den(xs[1..], i - 1, k - 1) * (xs[0] - xs[i])
  {
    if k > 1 {
      ProductsOfSuffix(xs, i, k - 1);
      if k - 1 != i {
        Swap(Num(xs[1..], i - 1, k - 2), xs[0], xs[k - 1]);
        Swap(Den(xs[1..], i - 1, k - 2), xs[0] - xs[i], xs[k - 1] - xs[i]);
      }
    }
  }

  lemma {:induction false} DropLast(xs: seq<int>, i: nat, p: int)
    requires Prime(p) && Distinct(xs, p) && i < |xs| - 1
    ensures var m := |xs| - 1;
      Distinct(xs[..m], p) && Cong(xs[m] * Lambda(xs[..m], i, p), (xs[m] - xs[i]) * Lambda(xs, i, p), p)
  {
    var m := |xs| - 1;
    ProductsOfPrefix(xs, i, m);
    DistinctDenominator(xs[..m], i, p);
    DropPoint(xs[m], xs[i], Num(xs, i, m + 1), Den(xs, i, m + 1), Lambda(xs, i, p),
              Num(xs[..m], i, m), Den(xs[..m], i, m), Lambda(xs[..m], i, p), p);
  }

  lemma {:induction false} DropFirst(xs: seq<int>, i: nat, p: int)
    requires Prime(p) && Distinct(xs, p) && 1 <= i < |xs|
    ensures Distinct(xs[1..], p)
    ensures Cong(xs[0] * Lambda(xs[1..], i - 1, p), (xs[0] - xs[i]) * Lambda(xs, i, p), p)
  {
    ProductsOfSuffix(xs, i, |xs|);
    DistinctDenominator(xs[1..], i - 1, p);
    DropPoint(xs[0], xs[i], Num(xs, i, |xs|), Den(xs, i, |xs|), Lambda(xs, i, p),
              Num(xs[1..], i - 1, |xs| - 1), Den(xs[1..], i - 1, |xs| - 1), Lambda(xs[1..], i - 1, p), p);
  }

  // ---- Weighted sums ----

  /** The coefficients of all points. */
  function Lambdas(xs: seq<int>, p: int): (ls: seq<int>)
    requires Prime(p) && Distinct(xs, p)
    ensures |ls| == |xs| && forall i :: 0 <= i < |xs| ==> ls[i] == Lambda(xs, i, p)
  {
    seq(|xs|, i requires 0 <= i < |xs| => Lambda(xs, i, p))
  }

  /** The sum of y_i * l_i over i < k. */
  function Dot(ys: seq<int>, ls: seq<int>, k: nat): int
    requires k <= |ys| && k <= |ls|
  {
    if k == 0 then 0 else Dot(ys, ls, k - 1) + ys[k - 1] * ls[k - 1]
  }

  function Times(xs: seq<int>, ys: seq<int>): (zs: seq<int>)
    requires |xs| == |ys|
    ensures |zs| == |xs| && forall i :: 0 <= i < |xs| ==> zs[i] == xs[i] * ys[i]
  {
    seq(|xs|, i requires 0 <= i < |xs| => xs[i] * ys[i])
  }

  /** Replacing coefficients as in `DropPoint`, summed up. */
  lemma {:induction false} DotDrop(x: int, xs: seq<int>, ys: seq<int>, ls: seq<int>, ls': seq<int>, p: int, k: nat)
    requires k <= |xs| == |ys| && k <= |ls| && k <= |ls'|
    requires forall i :: 0 <= i < k ==> Cong(x * ls'[i], (x - xs[i]) * ls[i], p)
    ensures Cong(x * Dot(ys, ls', k), x * Dot(ys, ls, k) - Dot(Times(xs, ys), ls, k), p)
  {
    if k == 0 {
      CongEqual(x * 0, x * 0 - 0, p);
    } else {
      DotDrop(x, xs, ys, ls, ls', p, k - 1);
      SumStep(x, xs[k - 1], ys[k - 1], ls'[k - 1], ls[k - 1],
              Dot(ys, ls', k - 1), Dot(ys, ls, k - 1), Dot(Times(xs, ys), ls, k - 1),
              Dot(ys, ls', k), Dot(ys, ls, k), Dot(Times(xs, ys), ls, k), p);
    }
  }

  /** One more term of the three sums s', s and t. */
  lemma {:induction false} SumStep(
    x: int, xi: int, y: int, l': int, l: int, s': int, s: int, t: int, s1': int, s1: int, t1: int, p: int)
    requires Cong(x * s', x * s - t, p) && Cong(x * l', (x - xi) * l, p)
    requires s1' == s' + y * l' && s1 == s + y * l && t1 == t + xi * y * l
    ensures Cong(x * s1', x * s1 - t1, p)
  {
    CongScale(y, x * l', (x - xi) * l, p);
    CongAdd(x * s', x * s - t, y * (x * l'), y * ((x - xi) * l), p);
    ScaledSum(x, s', y, l', s1');
    ScaledDifference(x, xi, s, t, y, l, s1, t1);
  }

  lemma {:induction false} ScaledSum(x: int, s: int, y: int, l: int, s1: int)
    requires s1 == s + y * l
    ensures x * s + y * (x * l) == x * s1
  {
  }

  lemma {:induction false} ScaledDifference(x: int, xi: int, s: int, t: int, y: int, l: int, s1: int, t1: int)
    requires s1 == s + y * l && t1 == t + xi * y * l
    ensures x * s - t + y * ((x - xi) * l) == x * s1 - t1
  {
    assert y * ((x - xi) * l) == x * (y * l) - xi * y * l;
  }

  lemma {:induction false} DotShift(ys: seq<int>, ls: seq<int>, k: nat)
    requires 1 <= k <= |ys| && k <= |ls|
    ensures Dot(ys, ls, k) == ys[0] * ls[0] + Dot(ys[1..], ls[1..], k - 1)
  {
    if k > 1 {
      DotShift(ys, ls, k - 1);
    }
  }

  /** A term of the dropped point itself contributes nothing. */
  lemma {:induction false} OwnTermCancels(x: int, y: int, l: int, s: int, t: int, s1: int, t1: int)
    requires s1 == s + y * l && t1 == t + x * y * l
    ensures x * s1 - t1 == x * s - t
  {
  }

  lemma {:induction false} DotDropLast(xs: seq<int>, ys: seq<int>, ls: seq<int>, ls': seq<int>, p: int, m: nat)
    requires |xs| == |ys| == |ls| == m + 1 && |ls'| == m
    requires forall i :: 0 <= i < m ==> Cong(xs[m] * ls'[i], (xs[m] - xs[i]) * ls[i], p)
    ensures Cong(xs[m] * Dot(ys, ls', m), xs[m] * Dot(ys, ls, m + 1) - Dot(Times(xs, ys), ls, m + 1), p)
  {
    DotDrop(xs[m], xs, ys, ls, ls', p, m);
    OwnTermCancels(xs[m], ys[m], ls[m], Dot(ys, ls, m), Dot(Times(xs, ys), ls, m),
                   Dot(ys, ls, m + 1), Dot(Times(xs, ys), ls, m + 1));
  }

  /** The own term of the first point, in both sums. */
  lemma {:induction false} FirstTerm(xs: seq<int>, ys: seq<int>, ls: seq<int>, m: nat)
    requires |xs| == |ys| == |ls| == m + 1
    ensures xs[0] * Dot(ys, ls, m + 1) - Dot(Times(xs, ys), ls, m + 1) ==
      xs[0] * Dot(ys[1..], ls[1..], m) - Dot(Times(xs[1..], ys[1..]), ls[1..], m)
  {
    DotShift(ys, ls, m + 1);
    DotShift(Times(xs, ys), ls, m + 1);
    assert Times(xs, ys)[1..] == Times(xs[1..], ys[1..]);
    OwnTermCancels(xs[0], ys[0], ls[0], Dot(ys[1..], ls[1..], m), Dot(Times(xs[1..], ys[1..]), ls[1..], m),
                   Dot(ys, ls, m + 1), Dot(Times(xs, ys), ls, m + 1));
  }

  lemma {:induction false} DotDropFirst(xs: seq<int>, ys: seq<int>, ls: seq<int>, ls': seq<int>, p: int, m: nat)
    requires |xs| == |ys| == |ls| == m + 1 && |ls'| == m
    requires forall i :: 0 <= i < m ==> Cong(xs[0] * ls'[i], (xs[0] - xs[1..][i]) * ls[1..][i], p)
    ensures Cong(xs[0] * Dot(ys[1..], ls', m), xs[0] * Dot(ys, ls, m + 1) - Dot(Times(xs, ys), ls, m + 1), p)
  {
    DotDrop(xs[0], xs[1..], ys[1..], ls[1..], ls', p, m);
    FirstTerm(xs, ys, ls, m);
  }

  lemma {:induction false} CoefficientWithoutLast(xs: seq<int>, i: nat, p: int)
    requires Prime(p) && Distinct(xs, p) && i + 1 < |xs| && Distinct(xs[..|xs| - 1], p)
    ensures Cong(xs[|xs| - 1] * Lambdas(xs[..|xs| - 1], p)[i], (xs[|xs| - 1] - xs[i]) * Lambdas(xs, p)[i], p)
  {
    DropLast(xs, i, p);
  }

  /** The sums without the last point. */
  lemma {:induction false} DotWithoutLast(xs: seq<int>, ys: seq<int>, p: int)
    requires Prime(p) && Distinct(xs, p) && 1 <= |xs| == |ys|
    ensures var m, ls := |xs| - 1, Lambdas(xs, p);
      && Distinct(xs[..m], p)
      && Cong(xs[m] * Dot(ys, Lambdas(xs[..m], p), m),
              xs[m] * Dot(ys, ls, m + 1) - Dot(Times(xs, ys), ls, m + 1), p)
  {
    var m, ls := |xs| - 1, Lambdas(xs, p);
    assert Distinct(xs[..m], p);
    var ls' := Lambdas(xs[..m], p);
    forall i | 0 <= i < m
      ensures Cong(xs[m] * ls'[i], (xs[m] - xs[i]) * ls[i], p)
    {
      CoefficientWithoutLast(xs, i, p);
    }
    DotDropLast(xs, ys, ls, ls', p, m);
  }

  lemma {:induction false} CoefficientWithoutFirst(xs: seq<int>, i: nat, p: int)
    requires Prime(p) && Distinct(xs, p) && i + 1 < |xs| && Distinct(xs[1..], p)
    ensures Cong(xs[0] * Lambdas(xs[1..], p)[i], (xs[0] - xs[1..][i]) * Lambdas(xs, p)[1..][i], p)
  {
    DropFirst(xs, i + 1, p);
  }

  /** The sums without the first point. */
  lemma {:induction false} DotWithoutFirst(xs: seq<int>, ys: seq<int>, p: int)
    requires Prime(p) && Distinct(xs, p) && 1 <= |xs| == |ys|
    ensures var m, ls := |xs| - 1, Lambdas(xs, p);
      && Distinct(xs[1..], p)
      && Cong(xs[0] * Dot(ys[1..], Lambdas(xs[1..], p), m),
              xs[0] * Dot(ys, ls, m + 1) - Dot(Times(xs, ys), ls, m + 1), p)
  {
    var m, ls := |xs| - 1, Lambdas(xs, p);
    assert Distinct(xs[1..], p);
    var ls' := Lambdas(xs[1..], p);
    forall i | 0 <= i < m
      ensures Cong(xs[0] * ls'[i], (xs[0] - xs[1..][i]) * ls[1..][i], p)
    {
      CoefficientWithoutFirst(xs, i, p);
    }
    DotDropFirst(xs, ys, ls, ls', p, m);
  }

  function Ones(n: nat): (s: seq<int>)
    ensures |s| == n && forall i :: 0 <= i < n ==> s[i] == 1
  {
    seq(n, _ => 1)
  }

  /** The coefficients sum to one. */
  lemma {:induction false} LambdasSumToOne(xs: seq<int>, p: int)
    requires Prime(p) && Distinct(xs, p) && |xs| >= 1
    ensures Cong(Dot(Ones(|xs|), Lambdas(xs, p), |xs|), 1, p)
    decreases |xs|
  {
    var n := |xs|;
    if n == 1 {
      SinglePoint(xs, p);
    } else {
      assert Distinct(xs[..n - 1], p) && Distinct(xs[1..], p);
      LambdasSumToOne(xs[..n - 1], p);
      LambdasSumToOne(xs[1..], p);
      SumFromEnds(xs, p);
    }
  }

  /** The sum over all points from the sums without the last and without the first. */
  lemma {:induction false} SumFromEnds(xs: seq<int>, p: int)
    requires Prime(p) && Distinct(xs, p) && |xs| >= 2
    requires Distinct(xs[..|xs| - 1], p) && Distinct(xs[1..], p)
    requires Cong(Dot(Ones(|xs| - 1), Lambdas(xs[..|xs| - 1], p), |xs| - 1), 1, p)
    requires Cong(Dot(Ones(|xs| - 1), Lambdas(xs[1..], p), |xs| - 1), 1, p)
    ensures Cong(Dot(Ones(|xs|), Lambdas(xs, p), |xs|), 1, p)
  {
    var n := |xs|;
    var ones := Ones(n);
    var ls, front, back := Lambdas(xs, p), Lambdas(xs[..n - 1], p), Lambdas(xs[1..], p);
    DotWithoutLast(xs, ones, p);
    DotWithoutFirst(xs, ones, p);
    DotSameValues(ones, Ones(n - 1), front, n - 1);
    DotSameValues(ones[1..], Ones(n - 1), back, n - 1);
    CombineEnds(xs[n - 1], xs[0], Dot(ones, front, n - 1), Dot(ones[1..], back, n - 1),
                Dot(ones, ls, n), Dot(Times(xs, ones), ls, n), p);
  }

  lemma {:induction false} SinglePoint(xs: seq<int>, p: int)
    requires Prime(p) && Distinct(xs, p) && |xs| == 1
    ensures Cong(Dot(Ones(1), Lambdas(xs, p), 1), 1, p)
  {
    var l := Lambda(xs, 0, p);
    assert Num(xs, 0, 1) == Num(xs, 0, 0) == 1 && Den(xs, 0, 1) == Den(xs, 0, 0) == 1;
    assert Dot(Ones(1), Lambdas(xs, p), 1) == 0 + 1 * l;
  }

  lemma {:induction false} CombineEnds(x: int, x': int, a: int, a': int, s: int, t: int, p: int)
    requires Prime(p) && !Cong(x', x, p) && Cong(a, 1, p) && Cong(a', 1, p)
    requires Cong(x * a, x * s - t, p) && Cong(x' * a', x' * s - t, p)
    ensures Cong(s, 1, p)
  {
    EndValue(x, a, x * s - t, p);
    EndValue(x', a', x' * s - t, p);
    CongSub(x * s - t, x, x' * s - t, x', p);
    assert (x * s - t) - (x' * s - t) == (x - x') * s;
    assert (x - x') * 1 == x - x';
    DifferenceNonZero(x, x', p);
    CancelNonZero(x - x', s, 1, p);
  }

  lemma {:induction false} EndValue(x: int, a: int, b: int, p: int)
    requires Cong(a, 1, p) && Cong(x * a, b, p)
    ensures Cong(b, x, p)
  {
    CongScale(x, a, 1, p);
    CongSymmetric(x * a, b, p);
    CongTransitive(b, x * a, x, p);
  }

  lemma {:induction false} DotSameValues(ys: seq<int>, zs: seq<int>, ls: seq<int>, k: nat)
    requires k <= |ys| && k <= |zs| && k <= |ls|
    requires forall i :: 0 <= i < k ==> ys[i] == zs[i]
    ensures Dot(ys, ls, k) == Dot(zs, ls, k)
  {
    if k > 0 {
      DotSameValues(ys, zs, ls, k - 1);
    }
  }

  lemma {:induction false} DotCong(ys: seq<int>, zs: seq<int>, ls: seq<int>, p: int, k: nat)
    requires k <= |ys| && k <= |zs| && k <= |ls|
    requires forall i :: 0 <= i < k ==> Cong(ys[i], zs[i], p)
    ensures Cong(Dot(ys, ls, k), Dot(zs, ls, k), p)
  {
    if k == 0 {
      CongEqual(0, 0, p);
    } else {
      DotCong(ys, zs, ls, p, k - 1);
      CongScale(ls[k - 1], ys[k - 1], zs[k - 1], p);
      CongAdd(Dot(ys, ls, k - 1), Dot(zs, ls, k - 1), ls[k - 1] * ys[k - 1], ls[k - 1] * zs[k - 1], p);
    }
  }

  // ---- Interpolation ----

  function Values(coeffs: seq<int>, xs: seq<int>): (ys: seq<int>)
    ensures |ys| == |xs| && forall i :: 0 <= i < |xs| ==> ys[i] == Eval(coeffs, xs[i])
  {
    seq(|xs|, i requires 0 <= i < |xs| => Eval(coeffs, xs[i]))
  }

  lemma {:induction false} DotOfNested(c: int, ts: seq<int>, ys: seq<int>, ls: seq<int>, k: nat)
    requires k <= |ts| == |ys| && k <= |ls|
    requires forall i :: 0 <= i < |ys| ==> ys[i] == c + ts[i]
    ensures Dot(ys, ls, k) == c * Dot(Ones(|ys|), ls, k) + Dot(ts, ls, k)
  {
    if k > 0 {
      DotOfNested(c, ts, ys, ls, k - 1);
      NestedTerm(c, ts[k - 1], ls[k - 1], Dot(Ones(|ys|), ls, k - 1));
    }
  }

  lemma {:induction false} NestedTerm(c: int, t: int, l: int, d: int)
    ensures c * d + (c + t) * l == c * (d + 1 * l) + t * l
  {
  }

  /** Interpolation at zero recovers the constant term of any polynomial with no
      more coefficients than there are distinct points. */
  lemma {:induction false} Interpolates(xs: seq<int>, coeffs: seq<int>, p: int)
    requires Prime(p) && Distinct(xs, p) && |coeffs| <= |xs|
    ensures Cong(Dot(Values(coeffs, xs), Lambdas(xs, p), |xs|), Eval(coeffs, 0), p)
    decreases |coeffs|
  {
    var n := |xs|;
    var ls := Lambdas(xs, p);
    if coeffs == [] {
      DotOfZeros(Values(coeffs, xs), ls, n);
      CongEqual(0, 0, p);
    } else {
      var c, q, m := coeffs[0], coeffs[1..], n - 1;
      var tail := Values(q, xs);
      DotOfNested(c, Times(xs, tail), Values(coeffs, xs), ls, n);
      LambdasSumToOne(xs, p);
      DotWithoutLast(xs, tail, p);
      Interpolates(xs, q, p);
      Interpolates(xs[..m], q, p);
      var front := Lambdas(xs[..m], p);
      DotSameValues(tail, Values(q, xs[..m]), front, m);
      FinishStep(xs[m], c, Eval(q, 0), Dot(tail, front, m), Dot(tail, ls, n),
                 Dot(Times(xs, tail), ls, n), Dot(Ones(n), ls, n), p);
      assert Eval(coeffs, 0) == c + 0 * Eval(q, 0);
    }
  }

  lemma {:induction false} DotOfZeros(ys: seq<int>, ls: seq<int>, k: nat)
    requires k <= |ys| && k <= |ls|
    requires forall i :: 0 <= i < |ys| ==> ys[i] == 0
    ensures Dot(ys, ls, k) == 0
  {
    if k > 0 {
      DotOfZeros(ys, ls, k - 1);
    }
  }

  lemma {:induction false} FinishStep(x: int, c: int, v: int, a: int, s: int, t: int, one: int, p: int)
    requires Cong(a, v, p) && Cong(s, v, p) && Cong(one, 1, p)
    requires Cong(x * a, x * s - t, p)
    ensures Cong(c * one + t, c, p)
  {
    CongScale(x, a, v, p);
    CongScale(x, s, v, p);
    CongSub(x * s, x * v, x * a, x * v, p);
    CongEqual(x * s, x * s, p);
    CongSub(x * s, x * s, x * a, x * s - t, p);
    CongSymmetric(x * s - x * a, t, p);
    CongTransitive(t, x * s - x * a, 0, p);
    CongScale(c, one, 1, p);
    CongAdd(c * one, c, t, 0, p);
  }
}
