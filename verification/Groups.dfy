/** Abstract groups with scalar multiplication, and bilinear pairings on them. */
module Groups {
  import opened Arithmetic

  datatype Group<!P> = Group(zero: P, add: (P, P) -> P, mul: (int, P) -> P)

  /** The laws of an additive group of order p that the proofs rest on. */
  ghost predicate IsGroup<P(!new)>(g: Group<P>, p: int) {
    && (forall x :: g.mul(0, x) == g.zero)
    && (forall a, b, x :: g.mul(a, g.mul(b, x)) == g.mul(b * a, x))
    && (forall a, b, x :: g.add(g.mul(a, x), g.mul(b, x)) == g.mul(a + b, x))
    && (forall a, b, x :: Cong(a, b, p) ==> g.mul(a, x) == g.mul(b, x))
  }

  /** A pairing of two groups into a third, written multiplicatively. */
  datatype Pairing<!P, !Q, !T> =
    Pairing(g1: Group<P>, g2: Group<Q>, one: T, times: (T, T) -> T, pair: (P, Q) -> T)

  ghost predicate IsPairing<P(!new), Q(!new), T(!new)>(e: Pairing<P, Q, T>) {
    && (forall y :: e.pair(e.g1.zero, y) == e.one)
    && (forall x :: e.pair(x, e.g2.zero) == e.one)
    && (forall x, x', y :: e.pair(e.g1.add(x, x'), y) == e.times(e.pair(x, y), e.pair(x', y)))
    && (forall x, y, y' :: e.pair(x, e.g2.add(y, y')) == e.times(e.pair(x, y), e.pair(x, y')))
    && (forall a, x, y :: e.pair(e.g1.mul(a, x), y) == e.pair(x, e.g2.mul(a, y)))
  }

  /** BLS verification: e(signature, g2) == e(H(message), public key). */
  predicate Verifies<P, Q, T(==)>(e: Pairing<P, Q, T>, generator: Q, key: Q, point: P, signature: P) {
    e.pair(signature, generator) == e.pair(point, key)
  }

  function Sum<P>(g: Group<P>, s: seq<P>): P {
    if s == [] then g.zero else g.add(Sum(g, s[..|s| - 1]), s[|s| - 1])
  }

  /** Summing up in a loop, as both `aggregate` functions do. */
  method Aggregate<P>(g: Group<P>, s: seq<P>) returns (r: P)
    ensures r == Sum(g, s)
  {
    r := g.zero;
    for i := 0 to |s|
      invariant r == Sum(g, s[..i])
    {
      assert s[..i + 1][..i] == s[..i];
      r := g.add(r, s[i]);
    }
    assert s[..|s|] == s;
  }

  /** A sum of signatures verifies under the sum of the keys. */
  lemma {:induction false} AggregateVerifies<P(!new), Q(!new), T(!new)>(
    e: Pairing<P, Q, T>, generator: Q, point: P, keys: seq<Q>, signatures: seq<P>)
    requires IsPairing(e) && |keys| == |signatures|
    requires forall i :: 0 <= i < |keys| ==> Verifies(e, generator, keys[i], point, signatures[i])
    ensures Verifies(e, generator, Sum(e.g2, keys), point, Sum(e.g1, signatures))
  {
    if keys != [] {
      var m := |keys| - 1;
      AggregateVerifies(e, generator, point, keys[..m], signatures[..m]);
      assert Verifies(e, generator, keys[m], point, signatures[m]);
    }
  }

  /** Factors of the target group can be cancelled. */
  ghost predicate Cancels<P, Q, T(!new)>(e: Pairing<P, Q, T>) {
    && (forall a, b, c :: e.times(a, b) == e.times(a, c) ==> b == c)
    && (forall a, b, c :: e.times(b, a) == e.times(c, a) ==> b == c)
  }

  /** If all signatures but one are valid, the sum verifies exactly if that one is valid. */
  lemma {:induction false} OneSignatureDecides<P(!new), Q(!new), T(!new)>(
    e: Pairing<P, Q, T>, generator: Q, point: P, keys: seq<Q>, signatures: seq<P>, k: nat)
    requires IsPairing(e) && Cancels(e) && k < |keys| == |signatures|
    requires forall i :: 0 <= i < |keys| && i != k ==> e.pair(signatures[i], generator) == e.pair(point, keys[i])
    ensures Verifies(e, generator, Sum(e.g2, keys), point, Sum(e.g1, signatures)) <==>
      e.pair(signatures[k], generator) == e.pair(point, keys[k])
  {
    var m := |keys| - 1;
    var a, b := e.pair(Sum(e.g1, signatures[..m]), generator), e.pair(point, Sum(e.g2, keys[..m]));
    assert e.pair(Sum(e.g1, signatures), generator) == e.times(a, e.pair(signatures[m], generator));
    assert e.pair(point, Sum(e.g2, keys)) == e.times(b, e.pair(point, keys[m]));
    if k == m {
      AggregateVerifies(e, generator, point, keys[..m], signatures[..m]);
    } else {
      OneSignatureDecides(e, generator, point, keys[..m], signatures[..m], k);
    }
  }
}
