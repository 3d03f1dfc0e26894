/** Round-robin leader selection. */
module Leaders {
  import opened Wrappers
  import opened FiniteSets
  import opened Arithmetic

  type PeerId = nat

  ghost predicate StrictlySorted(replicas: seq<PeerId>) {
    forall i, j :: 0 <= i < j < |replicas| ==> replicas[i] < replicas[j]
  }

  datatype RoundRobin = RoundRobin(n: nat, replicas: seq<PeerId>)

  /** The checks of the constructor, which panics when they fail. */
  method NewRoundRobin(n: nat, replicas: seq<PeerId>) returns (r: Option<RoundRobin>)
    ensures r.Some? <==> |replicas| == n && StrictlySorted(replicas)
    ensures r.Some? ==> r.value == RoundRobin(n, replicas)
  {
    if |replicas| != n {
      return None;
    }
    var i := 1;
    while i < |replicas|
      invariant 1 <= i
      invariant forall j, k :: 0 <= j < k < i && k < |replicas| ==> replicas[j] < replicas[k]
    {
      if replicas[i - 1] >= replicas[i] {
        return None;
      }
      i := i + 1;
    }
    return Some(RoundRobin(n, replicas));
  }

  function LeaderForView(m: RoundRobin, view: nat): PeerId
    requires |m.replicas| == m.n > 0
  {
    m.replicas[view % m.n]
  }

  /** `b` is the replica after `a`: the least one above it, or the least of all if there is
      none above. */
  ghost predicate Follows(replicas: seq<PeerId>, a: PeerId, b: PeerId) {
    && b in replicas
    && if exists r :: r in replicas && r > a
       then b > a && forall r :: r in replicas && r > a ==> b <= r
       else forall r :: r in replicas ==> b <= r
  }

  lemma {:induction false} NextResidue(n: nat, v: nat)
    requires n > 0
    ensures (v + 1) % n == if v % n == n - 1 then 0 else v % n + 1
  {
    var q, r := v / n, v % n;
    assert v == q * n + r;
    if r == n - 1 {
      assert (q + 1) * n == q * n + n;
      ModIs(v + 1, n, q + 1, 0);
    } else {
      ModIs(v + 1, n, q, r + 1);
    }
  }

  lemma {:induction false} FollowsInList(replicas: seq<PeerId>, i: nat)
    requires StrictlySorted(replicas) && i < |replicas|
    ensures Follows(replicas, replicas[i], replicas[if i == |replicas| - 1 then 0 else i + 1])
  {
    if i == |replicas| - 1 {
      forall r | r in replicas
        ensures replicas[0] <= r <= replicas[i]
      {
        var k :| 0 <= k < |replicas| && replicas[k] == r;
      }
    } else {
      assert replicas[i + 1] in replicas && replicas[i + 1] > replicas[i];
      forall r | r in replicas && r > replicas[i]
        ensures replicas[i + 1] <= r
      {
        var k :| 0 <= k < |replicas| && replicas[k] == r;
      }
    }
  }

  /** View 0 belongs to the replica with the least number, and every view to the replica
      after the leader of the view before it. */
  lemma {:induction false} RotatesInOrder(m: RoundRobin, view: nat)
    requires |m.replicas| == m.n > 0 && StrictlySorted(m.replicas)
    ensures forall r :: r in m.replicas ==> LeaderForView(m, 0) <= r
    ensures Follows(m.replicas, LeaderForView(m, view), LeaderForView(m, view + 1))
  {
    ModIs(0, m.n, 0, 0);
    forall r | r in m.replicas
      ensures m.replicas[0] <= r
    {
      var k :| 0 <= k < |m.replicas| && m.replicas[k] == r;
    }
    NextResidue(m.n, view);
    FollowsInList(m.replicas, view % m.n);
  }

  /** Every residue occurs among any `n` consecutive views. */
  lemma {:induction false} ViewFor(n: nat, first: nat, i: nat) returns (v: nat)
    requires i < n
    ensures first <= v < first + n && v % n == i
  {
    var q, r := first / n, first % n;
    assert first == q * n + r;
    if r <= i {
      v := first + i - r;
      ModIs(v, n, q, i);
    } else {
      v := first + i - r + n;
      assert (q + 1) * n == q * n + n;
      ModIs(v, n, q + 1, i);
    }
  }

  /** Views less than `n` apart have different leaders. */
  lemma {:induction false} DistinctLeaders(m: RoundRobin, u: nat, v: nat)
    requires |m.replicas| == m.n > 0 && StrictlySorted(m.replicas)
    requires u < v < u + m.n
    ensures LeaderForView(m, u) != LeaderForView(m, v)
  {
    var n := m.n;
    if u % n == v % n {
      assert v - u == (v / n - u / n) * n;
      MulBound(v / n - u / n, n);
      assert false;
    }
  }

  /** Within any N consecutive views every replica leads exactly one. */
  lemma {:induction false} LeadsExactlyOnce(m: RoundRobin, first: nat, peer: PeerId)
    requires |m.replicas| == m.n > 0 && StrictlySorted(m.replicas) && peer in m.replicas
    ensures exists v :: first <= v < first + m.n && LeaderForView(m, v) == peer
    ensures forall u, v | first <= u < first + m.n && first <= v < first + m.n ::
      LeaderForView(m, u) == peer && LeaderForView(m, v) == peer ==> u == v
  {
    var i :| 0 <= i < m.n && m.replicas[i] == peer;
    var w := ViewFor(m.n, first, i);
    assert LeaderForView(m, w) == peer;
    forall u, v | first <= u < first + m.n && first <= v < first + m.n &&
      LeaderForView(m, u) == peer && LeaderForView(m, v) == peer
      ensures u == v
    {
      if u < v {
        DistinctLeaders(m, u, v);
      } else if v < u {
        DistinctLeaders(m, v, u);
      }
    }
  }

  function LeadersOf(m: RoundRobin, first: nat, k: nat): set<PeerId>
    requires |m.replicas| == m.n > 0
  {
    if k == 0 then {} else LeadersOf(m, first, k - 1) + {LeaderForView(m, first + k - 1)}
  }

  lemma {:induction false} LaterLeaderIsNew(m: RoundRobin, first: nat, k: nat, v: nat)
    requires |m.replicas| == m.n > 0 && StrictlySorted(m.replicas) && first + k <= v < first + m.n
    ensures LeaderForView(m, v) !in LeadersOf(m, first, k)
  {
    if k > 0 {
      LaterLeaderIsNew(m, first, k - 1, v);
      DistinctLeaders(m, first + k - 1, v);
    }
  }

  lemma {:induction false} LeadersDistinct(m: RoundRobin, first: nat, k: nat)
    requires |m.replicas| == m.n > 0 && StrictlySorted(m.replicas) && k <= m.n
    ensures |LeadersOf(m, first, k)| == k
  {
    if k > 0 {
      LeadersDistinct(m, first, k - 1);
      LaterLeaderIsNew(m, first, k - 1, first + k - 1);
    }
  }

  lemma {:induction false} LeadersWithin(m: RoundRobin, first: nat, k: nat, s: set<PeerId>)
    requires |m.replicas| == m.n > 0
    requires forall v :: first <= v < first + k ==> LeaderForView(m, v) in s
    ensures LeadersOf(m, first, k) <= s
  {
    if k > 0 {
      LeadersWithin(m, first, k - 1, s);
    }
  }

  /** Any F+1 consecutive views, F < N, include one with a correct leader. */
  lemma {:induction false} CorrectLeaderSoon(m: RoundRobin, first: nat, f: nat, byz: set<PeerId>)
    requires |m.replicas| == m.n && StrictlySorted(m.replicas)
    requires f < m.n && |byz| <= f
    ensures exists v :: first <= v <= first + f && LeaderForView(m, v) !in byz
  {
    if forall v :: first <= v < first + (f + 1) ==> LeaderForView(m, v) in byz {
      LeadersWithin(m, first, f + 1, byz);
      LeadersDistinct(m, first, f + 1);
      SubsetSize(LeadersOf(m, first, f + 1), byz);
      assert false;
    }
  }
}
