/** Threshold BLS: combining partial signatures by interpolation in the exponent. */
module Threshold {
  import opened Wrappers
  import opened Arithmetic
  import opened PrimeField
  import opened Polynomials
  import opened Lagrange
  import opened Shamir
  import opened Groups

  datatype PartialSignature<P> = PartialSignature(id: nat, signature: P)

  function IdPoints<P>(partials: seq<PartialSignature<P>>, p: int): (xs: seq<int>)
    requires p > 0
    ensures |xs| == |partials| && forall i :: 0 <= i < |xs| ==> xs[i] == FromU64(partials[i].id, p)
  {
    seq(|partials|, i requires 0 <= i < |partials| => FromU64(partials[i].id, p))
  }

  /** Participant `i` signed `point` with its share of the polynomial. */
  ghost predicate SignedWith<P>(g: Group<P>, partials: seq<PartialSignature<P>>, coeffs: seq<int>, point: P, p: int)
    requires p > 0
  {
    forall i :: 0 <= i < |partials| ==>
      partials[i].signature == g.mul(Eval(coeffs, FromU64(partials[i].id, p)), point)
  }

  /** The combined signature of the first `threshold` partial ones. `None` is the
      source's error for too few signatures, and its panic when two ids coincide. */
  method Combine<P(!new)>(g: Group<P>, threshold: nat, partials: seq<PartialSignature<P>>, p: int)
    returns (r: Option<P>)
    requires Prime(p) && IsGroup(g, p)
    ensures r.None? <==> |partials| < threshold || !Distinct(IdPoints(partials[..threshold], p), p)
    ensures r.Some? ==> forall coeffs, point ::
      |coeffs| <= threshold && SignedWith(g, partials[..threshold], coeffs, point, p) ==>
      r.value == g.mul(Eval(coeffs, 0), point)
  {
    if |partials| < threshold {
      return None;
    }
    var used := partials[..threshold];
    var shares := seq(threshold, i requires 0 <= i < threshold => Share(FromU64(used[i].id, p), 0));
    ghost var xs := IdPoints(used, p);
    assert Points(shares) == xs;
    var acc := g.zero;
    var lambdas := [];
    for i := 0 to threshold
      invariant |lambdas| == i
      invariant forall k, j :: 0 <= k < i && 0 <= j < threshold && j != k ==> !Cong(xs[j], xs[k], p)
      invariant Distinct(xs, p) ==> forall k :: 0 <= k < i ==> lambdas[k] == Lambda(xs, k, p)
    {
      var lambda := LagrangeCoefficient(shares, i, p);
      if lambda.None? {
        ghost var j :| 0 <= j < threshold && j != i && Cong(shares[j].x, shares[i].x, p);
        DifferenceNonZero(xs[j], xs[i], p);
        return None;
      }
      lambdas := lambdas + [lambda.value];
    }
    for i := 0 to threshold
      invariant acc == WeightedSum(g, used, lambdas, i)
    {
      var term := g.mul(lambdas[i], used[i].signature);
      acc := if i == 0 then term else g.add(acc, term);
    }
    forall coeffs, point | |coeffs| <= threshold && SignedWith(g, used, coeffs, point, p)
      ensures acc == g.mul(Eval(coeffs, 0), point)
    {
      assert lambdas == Lambdas(xs, p);
      CombinedIsMaster(g, used, lambdas, coeffs, point, p);
    }
    return Some(acc);
  }

  function WeightedSum<P>(g: Group<P>, partials: seq<PartialSignature<P>>, lambdas: seq<int>, k: nat): P
    requires k <= |partials| == |lambdas|
  {
    if k == 0 then g.zero
    else
      var term := g.mul(lambdas[k - 1], partials[k - 1].signature);
      if k == 1 then term else g.add(WeightedSum(g, partials, lambdas, k - 1), term)
  }

  /** Multiplying a partial signature by its coefficient, and adding it to a multiple
      of the point, multiplies and adds the exponents. */
  ghost predicate TermInExponent<P(!new)>(g: Group<P>, point: P, y: int, l: int, signature: P) {
    && g.mul(l, signature) == g.mul(y * l, point)
    && forall d :: g.add(g.mul(d, point), g.mul(l, signature)) == g.mul(d + y * l, point)
  }

  lemma {:induction false} TermHolds<P(!new)>(g: Group<P>, point: P, y: int, l: int, p: int)
    requires IsGroup(g, p)
    ensures TermInExponent(g, point, y, l, g.mul(y, point))
  {
    assert g.mul(l, g.mul(y, point)) == g.mul(y * l, point);
  }

  lemma {:induction false} WeightedSumInExponent<P(!new)>(
    g: Group<P>, partials: seq<PartialSignature<P>>, ls: seq<int>, ys: seq<int>, point: P, k: nat)
    requires 1 <= k <= |partials| == |ls| == |ys|
    requires forall i :: 0 <= i < |ys| ==> TermInExponent(g, point, ys[i], ls[i], partials[i].signature)
    ensures WeightedSum(g, partials, ls, k) == g.mul(Dot(ys, ls, k), point)
  {
    assert TermInExponent(g, point, ys[k - 1], ls[k - 1], partials[k - 1].signature);
    if k > 1 {
      WeightedSumInExponent(g, partials, ls, ys, point, k - 1);
    } else {
      assert Dot(ys, ls, 1) == Dot(ys, ls, 0) + ys[0] * ls[0];
    }
  }

  /** The Lagrange-weighted sum is the master secret times the message point. */
  lemma {:induction false} CombinedIsMaster<P(!new)>(
    g: Group<P>, partials: seq<PartialSignature<P>>, ls: seq<int>, coeffs: seq<int>, point: P, p: int)
    requires Prime(p) && IsGroup(g, p) && |coeffs| <= |partials| == |ls|
    requires Distinct(IdPoints(partials, p), p) && ls == Lambdas(IdPoints(partials, p), p)
    requires SignedWith(g, partials, coeffs, point, p)
    ensures WeightedSum(g, partials, ls, |partials|) == g.mul(Eval(coeffs, 0), point)
  {
    if |partials| > 0 {
      var xs := IdPoints(partials, p);
      var ys := Values(coeffs, xs);
      forall i | 0 <= i < |ys|
        ensures TermInExponent(g, point, ys[i], ls[i], partials[i].signature)
      {
        TermHolds(g, point, ys[i], ls[i], p);
      }
      WeightedSumInExponent(g, partials, ls, ys, point, |partials|);
      Interpolates(xs, coeffs, p);
      SameMultiple(g, point, Dot(ys, ls, |ys|), Eval(coeffs, 0), p);
    }
  }

  lemma {:induction false} SameMultiple<P(!new)>(g: Group<P>, point: P, a: int, b: int, p: int)
    requires IsGroup(g, p) && Cong(a, b, p)
    ensures g.mul(a, point) == g.mul(b, point)
  {
  }

  /** Any two sets of `threshold` different participants produce the same
      signature, and it verifies under the master public key. */
  method CombineTwice<P(!new, ==), Q(!new), T(!new, ==)>(
    e: Pairing<P, Q, T>, generator: Q, threshold: nat, coeffs: seq<int>, point: P,
    partials: seq<PartialSignature<P>>, partials': seq<PartialSignature<P>>, p: int)
    returns (r: Option<P>, r': Option<P>)
    requires Prime(p) && IsGroup(e.g1, p) && IsPairing(e) && 0 < |coeffs| == threshold
    requires |partials| == |partials'| == threshold
    requires Distinct(IdPoints(partials, p), p) && Distinct(IdPoints(partials', p), p)
    requires SignedWith(e.g1, partials, coeffs, point, p) && SignedWith(e.g1, partials', coeffs, point, p)
    ensures r.Some? && r == r'
    ensures Verifies(e, generator, e.g2.mul(coeffs[0], generator), point, r.value)
  {
    assert partials[..threshold] == partials && partials'[..threshold] == partials';
    r := Combine(e.g1, threshold, partials, p);
    r' := Combine(e.g1, threshold, partials', p);
    assert Eval(coeffs, 0) == coeffs[0] + 0 * Eval(coeffs[1..], 0);
  }
}
