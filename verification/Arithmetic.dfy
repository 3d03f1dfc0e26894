/** Division, remainders and congruence of integers. */
module Arithmetic {

  lemma {:induction false} MulBound(k: int, n: int)
    requires n > 0
    ensures k >= 1 ==> k * n >= n
    ensures k <= -1 ==> k * n <= -n
  {
    if k >= 1 {
      assert (k - 1) * n >= 0;
    } else if k <= -1 {
      assert (-1 - k) * n >= 0;
    }
  }

  /** Quotient and remainder are unique. */
  lemma {:induction false} DivisionUnique(n: int, q: int, r: int, q': int, r': int)
    requires 0 <= r < n && 0 <= r' < n
    requires q * n + r == q' * n + r'
    ensures q == q' && r == r'
  {
    assert (q - q') * n == q * n - q' * n;
    MulBound(q - q', n);
  }

  lemma {:induction false} ModIs(x: int, n: int, q: int, r: int)
    requires 0 <= r < n && x == q * n + r
    ensures x / n == q && x % n == r
  {
    DivisionUnique(n, x / n, x % n, q, r);
  }

  predicate Differ(a: int, b: int, p: int, k: int) {
    a - b == k * p
  }

  /** `a` and `b` differ by a multiple of `p`. */
  ghost predicate Cong(a: int, b: int, p: int) {
    exists k :: Differ(a, b, p, k)
  }

  lemma {:induction false} CongBy(a: int, b: int, p: int, k: int)
    requires a - b == k * p
    ensures Cong(a, b, p)
  {
    assert Differ(a, b, p, k);
  }

  lemma {:induction false} CongEqual(a: int, b: int, p: int)
    requires a == b
    ensures Cong(a, b, p)
  {
    CongBy(a, b, p, 0);
  }

  lemma {:induction false} CongSymmetric(a: int, b: int, p: int)
    requires Cong(a, b, p)
    ensures Cong(b, a, p)
  {
    var k :| Differ(a, b, p, k);
    CongBy(b, a, p, -k);
  }

  lemma {:induction false} CongTransitive(a: int, b: int, c: int, p: int)
    requires Cong(a, b, p) && Cong(b, c, p)
    ensures Cong(a, c, p)
  {
    var k :| Differ(a, b, p, k);
    var l :| Differ(b, c, p, l);
    CongBy(a, c, p, k + l);
  }

  lemma {:induction false} CongAdd(a: int, b: int, c: int, d: int, p: int)
    requires Cong(a, b, p) && Cong(c, d, p)
    ensures Cong(a + c, b + d, p)
  {
    var k :| Differ(a, b, p, k);
    var l :| Differ(c, d, p, l);
    CongBy(a + c, b + d, p, k + l);
  }

  lemma {:induction false} CongScale(c: int, a: int, b: int, p: int)
    requires Cong(a, b, p)
    ensures Cong(c * a, c * b, p)
  {
    var k :| Differ(a, b, p, k);
    assert c * a - c * b == c * (a - b) == (c * k) * p;
    CongBy(c * a, c * b, p, c * k);
  }

  lemma {:induction false} CongSub(a: int, b: int, c: int, d: int, p: int)
    requires Cong(a, b, p) && Cong(c, d, p)
    ensures Cong(a - c, b - d, p)
  {
    CongScale(-1, c, d, p);
    CongAdd(a, b, -c, -d, p);
  }

  lemma {:induction false} CongMul(a: int, b: int, c: int, d: int, p: int)
    requires Cong(a, b, p) && Cong(c, d, p)
    ensures Cong(a * c, b * d, p)
  {
    CongScale(c, a, b, p);
    CongScale(b, c, d, p);
    CongTransitive(c * a, c * b, b * d, p);
  }

  /** Multiplication by an invertible factor can be undone. */
  lemma {:induction false} CongCancel(c: int, inverse: int, a: int, b: int, p: int)
    requires Cong(c * inverse, 1, p) && Cong(c * a, c * b, p)
    ensures Cong(a, b, p)
  {
    CongScale(a, c * inverse, 1, p);
    CongScale(b, c * inverse, 1, p);
    CongScale(inverse, c * a, c * b, p);
    assert inverse * (c * a) == a * (c * inverse) && inverse * (c * b) == b * (c * inverse);
    CongSymmetric(a * (c * inverse), a, p);
    CongTransitive(a, a * (c * inverse), b * (c * inverse), p);
    CongTransitive(a, b * (c * inverse), b, p);
  }

  lemma {:induction false} CongMod(a: int, p: int)
    requires p > 0
    ensures Cong(a % p, a, p) && Cong(a, a % p, p)
  {
    CongBy(a % p, a, p, -(a / p));
    CongSymmetric(a % p, a, p);
  }

  /** Congruent integers have the same remainder, and only those. */
  lemma {:induction false} CongIffMod(a: int, b: int, p: int)
    requires p > 0
    ensures Cong(a, b, p) <==> a % p == b % p
  {
    if Cong(a, b, p) {
      var k :| Differ(a, b, p, k);
      assert (b / p + k) * p == (b / p) * p + k * p;
      ModIs(a, p, b / p + k, b % p);
    }
    if a % p == b % p {
      CongMod(a, p);
      CongMod(b, p);
      CongTransitive(a, a % p, b, p);
    }
  }
}
