/** The scalar field: integers modulo a prime, as the residues 0 to p-1. */
module PrimeField {
  import opened Wrappers
  import opened Arithmetic

  ghost predicate Prime(p: int) {
    p >= 2 && forall d :: 1 < d < p ==> p % d != 0
  }

  predicate IsScalar(a: int, p: int) {
    0 <= a < p
  }

  function FromU64(v: nat, p: int): (r: int)
    requires p > 0
    ensures IsScalar(r, p) && Cong(r, v, p)
  {
    CongMod(v, p);
    v % p
  }

  function Add(a: int, b: int, p: int): (r: int)
    requires p > 0
    ensures IsScalar(r, p) && Cong(r, a + b, p)
  {
    CongMod(a + b, p);
    (a + b) % p
  }

  function Sub(a: int, b: int, p: int): (r: int)
    requires p > 0
    ensures IsScalar(r, p) && Cong(r, a - b, p)
  {
    CongMod(a - b, p);
    (a - b) % p
  }

  function Mul(a: int, b: int, p: int): (r: int)
    requires p > 0
    ensures IsScalar(r, p) && Cong(r, a * b, p)
  {
    CongMod(a * b, p);
    (a * b) % p
  }

  /** One step of the inverse: from p == q*a + r follows a*(-q*y) == 1 whenever r*y == 1. */
  lemma {:induction false} InverseStep(a: int, q: int, r: int, y: int, p: int)
    requires p == q * a + r && Cong(r * y, 1, p)
    ensures Cong(a * (-q * y), 1, p)
  {
    assert a * (-q * y) - r * y == -y * (q * a + r) == -y * p;
    CongBy(a * (-q * y), r * y, p, -y);
    CongTransitive(a * (-q * y), r * y, 1, p);
  }

  /** The inverse of every non-zero scalar. */
  function InverseOf(a: int, p: int): (x: int)
    requires Prime(p) && 0 < a < p
    ensures IsScalar(x, p) && Cong(a * x, 1, p)
    decreases a
  {
    if a == 1 then
      CongEqual(1, 1, p);
      1
    else
      var q, r := p / a, p % a;
      assert p == q * a + r;
      var y := InverseOf(r, p);
      InverseStep(a, q, r, y, p);
      CongMod(-q * y, p);
      CongScale(a, (-q * y) % p, -q * y, p);
      CongTransitive(a * ((-q * y) % p), a * (-q * y), 1, p);
      (-q * y) % p
  }

  function Inverse(a: int, p: int): (r: Option<int>)
    requires Prime(p) && IsScalar(a, p)
    ensures r.None? <==> a == 0
    ensures r.Some? ==> IsScalar(r.value, p) && Cong(a * r.value, 1, p)
  {
    if a == 0 then None else Some(InverseOf(a, p))
  }

  lemma {:induction false} DivideByInverse(a: int, b: int, x: int, p: int)
    requires p > 0 && Cong(b * x, 1, p)
    ensures Cong(b * Mul(a, x, p), a, p)
  {
    CongScale(a, b * x, 1, p);
    CongScale(b, Mul(a, x, p), a * x, p);
    assert a * (b * x) == b * (a * x);
    CongTransitive(b * Mul(a, x, p), a * (b * x), a, p);
  }

  function Div(a: int, b: int, p: int): (r: Option<int>)
    requires Prime(p) && IsScalar(b, p)
    ensures r.None? <==> b == 0
    ensures r.Some? ==> IsScalar(r.value, p) && Cong(b * r.value, a, p)
  {
    if b == 0 then None
    else
      DivideByInverse(a, b, Inverse(b, p).value, p);
      Some(Mul(a, Inverse(b, p).value, p))
  }

  /** A scalar is determined by its congruence class. */
  lemma {:induction false} ScalarUnique(a: int, b: int, p: int)
    requires IsScalar(a, p) && IsScalar(b, p) && Cong(a, b, p)
    ensures a == b
  {
    CongIffMod(a, b, p);
    ModIs(a, p, 0, a);
    ModIs(b, p, 0, b);
  }

  /** A product vanishes only if a factor does. */
  lemma {:induction false} NoZeroDivisors(a: int, b: int, p: int)
    requires Prime(p) && !Cong(a, 0, p) && Cong(a * b, 0, p)
    ensures Cong(b, 0, p)
  {
    var a' := a % p;
    CongMod(a, p);
    if a' == 0 {
      assert false;
    }
    var x := InverseOf(a', p);
    CongScale(x, a, a', p);
    CongTransitive(a * x, a' * x, 1, p);
    CongCancel(a, x, b, 0, p);
  }
}
