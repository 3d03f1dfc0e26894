/** Polynomials over the scalar field, constant term first. */
module Polynomials {
  import opened Arithmetic
  import opened PrimeField

  ghost predicate AreScalars(s: seq<int>, p: int) {
    forall i :: 0 <= i < |s| ==> IsScalar(s[i], p)
  }

  /** The value of a polynomial before reduction modulo p. */
  function Eval(coeffs: seq<int>, x: int): int {
    if coeffs == [] then 0 else coeffs[0] + x * Eval(coeffs[1..], x)
  }

  function Pow(x: int, k: nat): int {
    if k == 0 then 1 else x * Pow(x, k - 1)
  }

  /** a_0 + a_1*x + a_2*x^2 + ..., over the first `k` coefficients. */
  function PowerSum(coeffs: seq<int>, x: int, k: nat): int
    requires k <= |coeffs|
  {
    if k == 0 then 0 else PowerSum(coeffs, x, k - 1) + coeffs[k - 1] * Pow(x, k - 1)
  }

  lemma {:induction false} PowerSumShift(coeffs: seq<int>, x: int, k: nat)
    requires 1 <= k <= |coeffs|
    ensures PowerSum(coeffs, x, k) == coeffs[0] + x * PowerSum(coeffs[1..], x, k - 1)
  {
    if k > 1 {
      PowerSumShift(coeffs, x, k - 1);
      ShiftTerm(x, PowerSum(coeffs[1..], x, k - 2), coeffs[k - 1], Pow(x, k - 2),
                PowerSum(coeffs[1..], x, k - 1), Pow(x, k - 1));
    }
  }

  lemma {:induction false} ShiftTerm(x: int, s: int, c: int, y: int, t: int, z: int)
    requires t == s + c * y && z == x * y
    ensures x * t == x * s + c * z
  {
  }

  /** The nested form is the sum of powers. */
  lemma {:induction false} EvalIsPowerSum(coeffs: seq<int>, x: int)
    ensures Eval(coeffs, x) == PowerSum(coeffs, x, |coeffs|)
  {
    if coeffs != [] {
      EvalIsPowerSum(coeffs[1..], x);
      PowerSumShift(coeffs, x, |coeffs|);
    }
  }

  /** Horner's method computes the sum of powers modulo p. */
  method Evaluate(coeffs: seq<int>, x: int, p: int) returns (result: int)
    requires p > 0 && AreScalars(coeffs, p)
    ensures IsScalar(result, p) && Cong(result, PowerSum(coeffs, x, |coeffs|), p)
  {
    EvalIsPowerSum(coeffs, x);
    if coeffs == [] {
      CongEqual(0, 0, p);
      return 0;
    }
    var i := |coeffs| - 1;
    result := coeffs[i];
    assert coeffs[i..][1..] == [];
    assert Eval(coeffs[i..], x) == coeffs[i] + x * 0;
    CongEqual(result, Eval(coeffs[i..], x), p);
    while i > 0
      invariant 0 <= i < |coeffs| && IsScalar(result, p)
      invariant Cong(result, Eval(coeffs[i..], x), p)
    {
      i := i - 1;
      var tail := coeffs[i + 1..];
      assert coeffs[i..][1..] == tail;
      HornerStep(result, Eval(tail, x), x, coeffs[i], p);
      result := Add(Mul(result, x, p), coeffs[i], p);
    }
    assert coeffs[0..] == coeffs;
  }

  lemma {:induction false} HornerStep(result: int, tail: int, x: int, c: int, p: int)
    requires p > 0 && Cong(result, tail, p)
    ensures Cong(Add(Mul(result, x, p), c, p), c + x * tail, p)
  {
    var m := Mul(result, x, p);
    CongScale(x, result, tail, p);
    CongTransitive(m, x * result, x * tail, p);
    CongEqual(c, c, p);
    CongAdd(m, x * tail, c, c, p);
    CongTransitive(Add(m, c, p), m + c, x * tail + c, p);
  }
}
