/** Nullification certificates: building one from nullify messages and verifying it. */
module Certificates {
  import opened Wrappers
  import opened Groups

  type PeerId = nat

  datatype Nullify<P> = Nullify(view: nat, leader: PeerId, signature: P, peer: PeerId)

  /** The source's equality of nullify messages: same view and same sender. */
  predicate SameNullify<P>(a: Nullify<P>, b: Nullify<P>) {
    a.view == b.view && a.peer == b.peer
  }

  /** A hash set under that equality holds no two equal messages. */
  ghost predicate IsNullifySet<P(!new)>(s: set<Nullify<P>>) {
    forall a, b :: a in s && b in s && SameNullify(a, b) ==> a == b
  }

  datatype Nullification<P> = Nullification(view: nat, leader: PeerId, signature: P, peers: seq<PeerId>)

  /** Keys of the validators, the pairing, and the hash of a message to a point. */
  datatype Scheme<!P, !Q, !T> =
    Scheme(e: Pairing<P, Q, T>, generator: Q, keys: map<PeerId, Q>, hash: (nat, PeerId) -> P)

  ghost predicate Signed<P, Q, T>(s: Scheme<P, Q, T>, n: Nullify<P>) {
    n.peer in s.keys && Verifies(s.e, s.generator, s.keys[n.peer], s.hash(n.view, n.leader), n.signature)
  }

  function KeysOf<P, Q, T>(s: Scheme<P, Q, T>, peers: seq<PeerId>): seq<Q>
    requires forall i :: 0 <= i < |peers| ==> peers[i] in s.keys
  {
    seq(|peers|, i requires 0 <= i < |peers| => s.keys[peers[i]])
  }

  /** `Nullification::verify`: the keys of the named peers, added up, verify the
      aggregated signature. It panics on an unknown peer, which is `None` here. */
  function VerifyNullification<P, Q, T(==)>(s: Scheme<P, Q, T>, n: Nullification<P>): (r: Option<bool>) {
    if forall i :: 0 <= i < |n.peers| ==> n.peers[i] in s.keys then
      Some(Verifies(s.e, s.generator, Sum(s.e.g2, KeysOf(s, n.peers)), s.hash(n.view, n.leader), n.signature))
    else
      None
  }

  /** The array of senders and the aggregated signature of `size` messages, taken
      in whatever order the set is iterated; fewer messages are an error. */
  method CreateNullificationData<P(!new, ==)>(g: Group<P>, size: nat, nullifies: set<Nullify<P>>)
    returns (r: Option<(array<PeerId>, P)>, ghost taken: seq<Nullify<P>>)
    requires IsNullifySet(nullifies)
    ensures r.None? <==> |nullifies| < size
    ensures r.Some? ==> fresh(r.value.0) && r.value.0.Length == |taken| == size
    ensures r.Some? ==> forall i :: 0 <= i < size ==> taken[i] in nullifies && r.value.0[i] == taken[i].peer
    ensures r.Some? ==> forall i, j :: 0 <= i < j < size ==> taken[i] != taken[j]
    ensures r.Some? ==> r.value.1 == Sum(g, Signatures(taken))
  {
    taken := [];
    if |nullifies| < size {
      return None, taken;
    }
    var peers := new PeerId[size](_ => 0);
    var signatures: seq<P> := [];
    var rest := nullifies;
    for i := 0 to size
      invariant |taken| == |signatures| == i && |rest| == |nullifies| - i && rest <= nullifies
      invariant forall k :: 0 <= k < i ==> taken[k] in nullifies && taken[k] !in rest && peers[k] == taken[k].peer
      invariant forall k, l :: 0 <= k < l < i ==> taken[k] != taken[l]
      invariant signatures == Signatures(taken)
    {
      var n :| n in rest;
      peers[i] := n.peer;
      signatures := signatures + [n.signature];
      taken := taken + [n];
      rest := rest - {n};
    }
    var sum := Aggregate(g, signatures);
    return Some((peers, sum)), taken;
  }

  ghost function Signatures<P>(taken: seq<Nullify<P>>): seq<P> {
    seq(|taken|, i requires 0 <= i < |taken| => taken[i].signature)
  }

  /** From 2F+1 or more validly signed nullify messages for one view and leader, the
      certificate names 2F+1 distinct senders of them and verifies. */
  method BuildNullification<P(!new, ==), Q(!new), T(!new, ==)>(
    s: Scheme<P, Q, T>, size: nat, view: nat, leader: PeerId, nullifies: set<Nullify<P>>)
    returns (r: Option<Nullification<P>>)
    requires IsPairing(s.e) && IsNullifySet(nullifies)
    requires forall n :: n in nullifies ==> n.view == view && n.leader == leader && Signed(s, n)
    ensures r.None? <==> |nullifies| < size
    ensures r.Some? ==> VerifyNullification(s, r.value) == Some(true)
    ensures r.Some? ==> r.value.view == view && r.value.leader == leader && |r.value.peers| == size
    ensures r.Some? ==> forall i, j :: 0 <= i < j < size ==> r.value.peers[i] != r.value.peers[j]
    ensures r.Some? ==> forall i :: 0 <= i < size ==> exists n :: n in nullifies && n.peer == r.value.peers[i]
  {
    var data, taken := CreateNullificationData(s.e.g1, size, nullifies);
    if data.None? {
      return None;
    }
    var peers := data.value.0[..];
    r := Some(Nullification(view, leader, data.value.1, peers));
    forall i, j | 0 <= i < j < size
      ensures peers[i] != peers[j]
    {
      assert taken[i] in nullifies && taken[j] in nullifies;
    }
    AggregateVerifies(s.e, s.generator, s.hash(view, leader), KeysOf(s, peers), Signatures(taken));
  }

  /** A certificate over signatures all but one of which are valid verifies exactly if that
      one is valid, too; one that names an unknown peer is not verified. */
  lemma {:induction false} CertificateDecides<P(!new), Q(!new), T(!new)>(
    s: Scheme<P, Q, T>, n: Nullification<P>, signatures: seq<P>, k: nat)
    requires IsPairing(s.e) && Cancels(s.e) && k < |n.peers| == |signatures| && n.signature == Sum(s.e.g1, signatures)
    requires forall i :: 0 <= i < |n.peers| && i != k ==>
      && n.peers[i] in s.keys
      && s.e.pair(signatures[i], s.generator) == s.e.pair(s.hash(n.view, n.leader), s.keys[n.peers[i]])
    ensures VerifyNullification(s, n) ==
      if n.peers[k] !in s.keys then None
      else Some(s.e.pair(signatures[k], s.generator) == s.e.pair(s.hash(n.view, n.leader), s.keys[n.peers[k]]))
  {
    if n.peers[k] in s.keys {
      OneSignatureDecides(s.e, s.generator, s.hash(n.view, n.leader), KeysOf(s, n.peers), signatures, k);
    }
  }
}
