/** The evidence rule of `nullify_view`, and what it rules out. */
module Evidence {
  import opened Blocks
  import opened FiniteSets
  import opened Protocol

  /** The evidence test of `nullify_view`. */
  predicate StrongEvidence(f: nat, conflictingVotes: nat, nullifies: nat) {
    conflictingVotes > f || conflictingVotes + nullifies > 2 * f
  }

  datatype Decision = AlreadyNullified | Cascade | Byzantine | Timeout | Refused

  /** The decision `nullify_view` takes; every outcome but `AlreadyNullified` and
      `Refused` sends a nullify message. */
  function Decide(f: nat, force: bool, hasNullified: bool, hasVoted: bool,
                  conflictingVotes: nat, nullifies: nat): (d: Decision)
    ensures d.AlreadyNullified? <==> hasNullified
    ensures d.Cascade? <==> !hasNullified && force
    ensures d.Byzantine? <==> !hasNullified && !force && (conflictingVotes > f || conflictingVotes + nullifies > 2 * f)
    ensures d.Timeout? <==>
      !hasNullified && !force && !hasVoted && conflictingVotes <= f && conflictingVotes + nullifies <= 2 * f
    ensures d.Refused? <==>
      !hasNullified && !force && hasVoted && conflictingVotes <= f && conflictingVotes + nullifies <= 2 * f
  {
    if hasNullified then AlreadyNullified
    else if force then Cascade
    else if hasVoted then
      if StrongEvidence(f, conflictingVotes, nullifies) then Byzantine else Refused
    else
      if StrongEvidence(f, conflictingVotes, nullifies) then Byzantine else Timeout
  }

  ghost predicate VotesOther(ms: set<Msg>, p: int, b: Block) {
    exists b' :: Vote(p, b') in ms && View(b') == View(b) && b' != b
  }

  /** The distinct replicas with a vote for another block of `b`'s view. */
  ghost function ConflictingVoters(c: Config, ms: set<Msg>, b: Block): set<int> {
    set p | p in Replicas(c) && VotesOther(ms, p, b)
  }

  /** The combined count of `nullify_view` exceeds the number of distinct opponents
      by the peers that both voted for another block and nullified. */
  lemma {:induction false} CombinedCount(c: Config, ms: set<Msg>, b: Block)
    ensures |ConflictingVoters(c, ms, b)| + |Nullifiers(c, ms, View(b))| ==
      |Opponents(c, ms, b)| + |ConflictingVoters(c, ms, b) * Nullifiers(c, ms, View(b))|
  {
    assert Opponents(c, ms, b) == ConflictingVoters(c, ms, b) + Nullifiers(c, ms, View(b));
  }

  // ---- What the evidence rules out ----

  /** A block can still be finalized although `k` distinct replicas voted for other
      blocks of its view. */
  ghost predicate CanFinalizeDespite(n: nat, f: nat, k: nat) {
    exists byz: set<int>, ms: set<Msg>, b: Block ::
      Finalizes(Config(n, f, byz), ms, b, k)
  }

  ghost predicate Finalizes(c: Config, ms: set<Msg>, b: Block, k: nat) {
    ValidConfig(c) && Inv(c, ms) && LNotarized(c, ms, b) && |ConflictingVoters(c, ms, b)| == k
  }

  const FIRST := Block(1, Genesis, 0)
  const SECOND := Block(1, Genesis, 1)

  ghost function VotesFrom(senders: set<int>, b: Block): (ms: set<Msg>)
    ensures forall m :: m in ms <==> m.Vote? && m.block == b && m.sender in senders
  {
    set r | r in senders :: Vote(r, b)
  }

  ghost function NullifiesFrom(senders: set<int>, v: nat): (ms: set<Msg>)
    ensures forall m :: m in ms <==> m.Nullify? && m.view == v && m.sender in senders
  {
    set r | r in senders :: Nullify(r, v)
  }

  /** Messages of view 1: votes for two blocks, and nullify messages. */
  ghost function FirstView(first: set<int>, second: set<int>, nullifiers: set<int>): set<Msg> {
    VotesFrom(first, FIRST) + VotesFrom(second, SECOND) + NullifiesFrom(nullifiers, 1)
  }

  lemma {:induction false} FirstViewCounts(c: Config, first: set<int>, second: set<int>, nullifiers: set<int>)
    requires first <= Replicas(c) && second <= Replicas(c) && nullifiers <= Replicas(c)
    ensures var ms := FirstView(first, second, nullifiers);
      && Voters(c, ms, FIRST) == first
      && ConflictingVoters(c, ms, FIRST) == second
      && Nullifiers(c, ms, 1) == nullifiers
  {
    var ms := FirstView(first, second, nullifiers);
    forall r | r in second
      ensures VotesOther(ms, r, FIRST)
    {
      assert Vote(r, SECOND) in ms;
    }
    forall r | VotesOther(ms, r, FIRST)
      ensures r in second
    {
      assert Vote(r, SECOND) in ms;
    }
  }

  /** No correct replica speaks twice. */
  lemma {:induction false} FirstViewInv(c: Config, first: set<int>, second: set<int>, nullifiers: set<int>)
    requires forall r :: r in first && r in second ==> !Correct(c, r)
    requires forall r :: r in first + second && r in nullifiers ==> !Correct(c, r)
    ensures Inv(c, FirstView(first, second, nullifiers))
  {
    var ms := FirstView(first, second, nullifiers);
    forall r, b | Correct(c, r) && Vote(r, b) in ms
      ensures Justified(c, ms, b)
    {
    }
    forall b | Defected(c, ms, b)
      ensures false
    {
    }
  }

  lemma {:induction false} FirstViewFinalizes(c: Config, first: set<int>, second: set<int>)
    requires ValidConfig(c) && first <= Replicas(c) && second <= Replicas(c)
    requires forall r :: r in first && r in second ==> !Correct(c, r)
    requires |first| >= c.n - c.f
    ensures Finalizes(c, FirstView(first, second, {}), FIRST, |second|)
  {
    FirstViewCounts(c, first, second, {});
    FirstViewInv(c, first, second, {});
  }

  /** The last `f` replicas are Byzantine, the last `k` vote for the second block,
      and all but the correct ones among those vote for the first. */
  lemma {:induction false} SplitVotesFinalize(n: nat, f: nat, k: nat)
    requires n >= 3 * f + 1 && k <= 2 * f
    ensures CanFinalizeDespite(n, f, k)
  {
    var byz, second := Range(n - f, n), Range(n - k, n);
    var first := Range(0, n - k) + byz;
    if k <= f {
      assert first == Range(0, n);
    } else {
      DisjointSize(Range(0, n - k), byz);
    }
    FirstViewFinalizes(Config(n, f, byz), first, second);
    assert Finalizes(Config(n, f, byz), FirstView(first, second, {}), FIRST, k);
  }

  /** Conflicting votes rule out finalization exactly when more than 2F distinct
      replicas cast them; the first disjunct of the evidence test asks for F+1. */
  lemma {:induction false} ConflictsRuleOutFinalization(n: nat, f: nat, k: nat)
    requires n >= 3 * f + 1
    ensures CanFinalizeDespite(n, f, k) <==> k <= 2 * f
  {
    if k <= 2 * f {
      SplitVotesFinalize(n, f, k);
    }
    if CanFinalizeDespite(n, f, k) {
      var byz, ms, b :| Finalizes(Config(n, f, byz), ms, b, k);
      var c := Config(n, f, byz);
      FewOthers(c, ms, b, ConflictingVoters(c, ms, b));
    }
  }
}
