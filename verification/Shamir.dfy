/** Shamir secret sharing: split and reconstruct. */
module Shamir {
  import opened Wrappers
  import opened Arithmetic
  import opened PrimeField
  import opened Polynomials
  import opened Lagrange

  datatype Share = Share(x: int, y: int)

  function Points(shares: seq<Share>): (xs: seq<int>)
    ensures |xs| == |shares| && forall i :: 0 <= i < |xs| ==> xs[i] == shares[i].x
  {
    seq(|shares|, i requires 0 <= i < |shares| => shares[i].x)
  }

  function ShareValues(shares: seq<Share>): (ys: seq<int>)
    ensures |ys| == |shares| && forall i :: 0 <= i < |ys| ==> ys[i] == shares[i].y
  {
    seq(|shares|, i requires 0 <= i < |shares| => shares[i].y)
  }

  /** Every share is a point of the polynomial. */
  ghost predicate OnPolynomial(shares: seq<Share>, coeffs: seq<int>, p: int) {
    forall i :: 0 <= i < |shares| ==> Cong(shares[i].y, Eval(coeffs, shares[i].x), p)
  }

  /** Shares of a secret at the points 1 to `total`. The random coefficients that
      the source draws are the parameter `random`. */
  method Split(threshold: nat, total: nat, secret: int, random: seq<int>, p: int) returns (shares: seq<Share>)
    requires p > 0 && IsScalar(secret, p) && AreScalars(random, p)
    requires threshold > 0 && |random| == threshold - 1
    ensures |shares| == total && OnPolynomial(shares, [secret] + random, p)
    ensures forall i :: 0 <= i < total ==> shares[i].x == FromU64(i + 1, p) && IsScalar(shares[i].y, p)
  {
    var coeffs := [secret] + random;
    shares := [];
    for i := 1 to total + 1
      invariant |shares| == i - 1 && OnPolynomial(shares, coeffs, p)
      invariant forall k :: 0 <= k < i - 1 ==> shares[k].x == FromU64(k + 1, p) && IsScalar(shares[k].y, p)
    {
      var x := FromU64(i, p);
      var y := Evaluate(coeffs, x, p);
      EvalIsPowerSum(coeffs, x);
      shares := shares + [Share(x, y)];
    }
  }

  /** The coefficient of share `i`; `None` where the source panics, which is
      exactly when another share has the same point. */
  method LagrangeCoefficient(shares: seq<Share>, i: nat, p: int) returns (r: Option<int>)
    requires Prime(p) && i < |shares|
    ensures r.None? <==> exists j :: 0 <= j < |shares| && j != i && Cong(shares[j].x, shares[i].x, p)
    ensures r.Some? && Distinct(Points(shares), p) ==> r.value == Lambda(Points(shares), i, p)
  {
    ghost var xs := Points(shares);
    var numerator, denominator := 1, 1;
    CongEqual(1, 1, p);
    for j := 0 to |shares|
      invariant IsScalar(numerator, p) && Cong(numerator, Num(xs, i, j), p)
      invariant IsScalar(denominator, p) && Cong(denominator, Den(xs, i, j), p)
    {
      if i != j {
        ProductStep(numerator, Num(xs, i, j), shares[j].x, shares[j].x, p);
        numerator := Mul(numerator, shares[j].x, p);
        var diff := Sub(shares[j].x, shares[i].x, p);
        ProductStep(denominator, Den(xs, i, j), diff, shares[j].x - shares[i].x, p);
        denominator := Mul(denominator, diff, p);
      }
    }
    r := Div(numerator, denominator, p);
    CoefficientOf(xs, i, numerator, denominator, p);
  }

  lemma {:induction false} ProductStep(a: int, b: int, c: int, d: int, p: int)
    requires p > 0 && Cong(a, b, p) && (c == d || Cong(c, d, p))
    ensures Cong(Mul(a, c, p), b * d, p)
  {
    CongEqual(d, d, p);
    CongMul(a, b, c, d, p);
    CongTransitive(Mul(a, c, p), a * c, b * d, p);
  }

  /** Dividing the computed products gives the Lagrange coefficient. */
  lemma {:induction false} CoefficientOf(xs: seq<int>, i: nat, num: int, den: int, p: int)
    requires Prime(p) && i < |xs| && IsScalar(den, p)
    requires Cong(num, Num(xs, i, |xs|), p) && Cong(den, Den(xs, i, |xs|), p)
    ensures den == 0 <==> exists j :: 0 <= j < |xs| && j != i && Cong(xs[j], xs[i], p)
    ensures den != 0 && Distinct(xs, p) ==> Div(num, den, p).value == Lambda(xs, i, p)
  {
    var n, d := Num(xs, i, |xs|), Den(xs, i, |xs|);
    DenominatorZero(xs, i, |xs|, p);
    if Cong(d, 0, p) {
      CongTransitive(den, d, 0, p);
      ScalarUnique(den, 0, p);
    }
    CongSymmetric(den, d, p);
    if den != 0 && Distinct(xs, p) {
      var l := Div(num, den, p).value;
      CongScale(l, d, den, p);
      CongTransitive(d * l, den * l, num, p);
      CongTransitive(d * l, num, n, p);
      SameQuotient(d, l, Lambda(xs, i, p), n, p);
    }
  }

  lemma {:induction false} SameQuotient(d: int, l: int, l': int, n: int, p: int)
    requires Prime(p) && !Cong(d, 0, p) && IsScalar(l, p) && IsScalar(l', p)
    requires Cong(d * l, n, p) && Cong(d * l', n, p)
    ensures l == l'
  {
    CongSymmetric(d * l', n, p);
    CongTransitive(d * l, n, d * l', p);
    CancelNonZero(d, l, l', p);
    ScalarUnique(l, l', p);
  }

  /** The secret from the first `threshold` shares; `None` where the source panics. */
  method Reconstruct(threshold: nat, shares: seq<Share>, p: int) returns (r: Option<int>)
    requires Prime(p)
    ensures r.None? <==> |shares| < threshold || !Distinct(Points(shares[..threshold]), p)
    ensures r.Some? ==> IsScalar(r.value, p) && forall coeffs ::
      |coeffs| <= threshold && OnPolynomial(shares[..threshold], coeffs, p) ==> Cong(r.value, Eval(coeffs, 0), p)
  {
    if |shares| < threshold {
      return None;
    }
    var used := shares[..threshold];
    ghost var xs, ys := Points(used), ShareValues(used);
    var secret := 0;
    CongEqual(0, 0, p);
    for i := 0 to threshold
      invariant IsScalar(secret, p)
      invariant forall k, j :: 0 <= k < i && 0 <= j < threshold && j != k ==> !Cong(xs[j], xs[k], p)
      invariant Distinct(xs, p) ==> Cong(secret, Dot(ys, Lambdas(xs, p), i), p)
    {
      var lambda := LagrangeCoefficient(used, i, p);
      if lambda.None? {
        ghost var j :| 0 <= j < threshold && j != i && Cong(used[j].x, used[i].x, p);
        DifferenceNonZero(xs[j], xs[i], p);
        return None;
      }
      if Distinct(xs, p) {
        AccumulateStep(secret, Dot(ys, Lambdas(xs, p), i), ys[i], lambda.value, p);
      }
      secret := Add(secret, Mul(used[i].y, lambda.value, p), p);
    }
    forall coeffs | |coeffs| <= threshold && OnPolynomial(used, coeffs, p)
      ensures Cong(secret, Eval(coeffs, 0), p)
    {
      SharesDetermineSecret(used, coeffs, p);
      CongTransitive(secret, Dot(ys, Lambdas(xs, p), threshold), Eval(coeffs, 0), p);
    }
    return Some(secret);
  }

  lemma {:induction false} AccumulateStep(s: int, d: int, y: int, l: int, p: int)
    requires p > 0 && Cong(s, d, p)
    ensures Cong(Add(s, Mul(y, l, p), p), d + y * l, p)
  {
    CongAdd(s, d, Mul(y, l, p), y * l, p);
    CongTransitive(Add(s, Mul(y, l, p), p), s + Mul(y, l, p), d + y * l, p);
  }

  /** At least as many distinct shares as coefficients determine the secret. */
  lemma {:induction false} SharesDetermineSecret(shares: seq<Share>, coeffs: seq<int>, p: int)
    requires Prime(p) && Distinct(Points(shares), p)
    requires |coeffs| <= |shares| && OnPolynomial(shares, coeffs, p)
    ensures Cong(Dot(ShareValues(shares), Lambdas(Points(shares), p), |shares|), Eval(coeffs, 0), p)
  {
    var xs, ys := Points(shares), ShareValues(shares);
    var ls := Lambdas(xs, p);
    Interpolates(xs, coeffs, p);
    DotCong(ys, Values(coeffs, xs), ls, p, |xs|);
    CongTransitive(Dot(ys, ls, |xs|), Dot(Values(coeffs, xs), ls, |xs|), Eval(coeffs, 0), p);
  }

  /** Different indices below p are different points. */
  lemma {:induction false} IndicesDistinct(ids: seq<nat>, p: int)
    requires p > 0
    requires forall i :: 0 <= i < |ids| ==> ids[i] < p
    requires forall i, j :: 0 <= i < j < |ids| ==> ids[i] != ids[j]
    ensures Distinct(ids, p)
  {
    forall i, j | 0 <= i < j < |ids|
      ensures !Cong(ids[i], ids[j], p)
    {
      if Cong(ids[i], ids[j], p) {
        ScalarUnique(ids[i], ids[j], p);
      }
    }
  }

  /** Shares with different indices have different points. */
  lemma {:induction false} PickedDistinct(used: seq<Share>, picks: seq<nat>, p: int)
    requires p > 0 && |used| <= |picks| && forall i :: 0 <= i < |used| ==> used[i].x == FromU64(picks[i] + 1, p)
    requires forall i :: 0 <= i < |picks| ==> picks[i] + 1 < p
    requires forall i, j :: 0 <= i < j < |picks| ==> picks[i] != picks[j]
    ensures Distinct(Points(used), p)
  {
    var ids := seq(|used|, i requires 0 <= i < |used| => picks[i] + 1);
    forall i | 0 <= i < |used|
      ensures used[i].x == ids[i]
    {
      ModIs(picks[i] + 1, p, 0, picks[i] + 1);
    }
    IndicesDistinct(ids, p);
    assert Points(used) == ids;
  }

  /** Round trip: any `threshold` different shares of a split, in any order, give
      back the secret. `picks` are the indices of the shares handed in. */
  method SplitAndReconstruct(threshold: nat, total: nat, secret: int, random: seq<int>, picks: seq<nat>, p: int)
    returns (r: Option<int>)
    requires Prime(p) && IsScalar(secret, p) && AreScalars(random, p)
    requires 0 < threshold <= total < p && |random| == threshold - 1
    requires |picks| >= threshold && forall i :: 0 <= i < |picks| ==> picks[i] < total
    requires forall i, j :: 0 <= i < j < |picks| ==> picks[i] != picks[j]
    ensures r == Some(secret)
  {
    var all := Split(threshold, total, secret, random, p);
    var chosen := seq(|picks|, i requires 0 <= i < |picks| => all[picks[i]]);
    ghost var coeffs, used := [secret] + random, chosen[..threshold];
    PickedDistinct(used, picks, p);
    assert OnPolynomial(used, coeffs, p);
    r := Reconstruct(threshold, chosen, p);
    assert Eval(coeffs, 0) == secret + 0 * Eval(coeffs[1..], 0);
    ScalarUnique(r.value, secret, p);
  }
}
