/** How much evidence a replica must have before it nullifies a view it voted in: exactly
    when every run keeps Lemma 5.3, and with it consistency. */
module Thresholds {
  import opened Blocks
  import opened FiniteSets
  import opened Protocol
  import opened Evidence

  // ---- Runs under a nullification guard ----

  /** `guard(recv, b)` says whether a voter of `b` that has received `recv` may nullify. */
  type Guard = (set<Msg>, Block) -> bool

  /** A guard for every configuration. */
  type Rule = Config -> Guard

  /** A step of the protocol, with the guard in the place of the documented rule. */
  ghost predicate GuardedNext(c: Config, guard: Guard, ms: set<Msg>, step: Step, ms': set<Msg>) {
    if step.NullifyStep? then
      && Correct(c, step.r) && step.recv <= ms && ms' == ms + {Nullify(step.r, step.v)}
      && forall b :: Vote(step.r, b) in ms && View(b) == step.v ==> guard(step.recv, b)
    else Next(c, ms, step, ms')
  }

  ghost predicate IsGuardedRun(c: Config, guard: Guard, run: Run) {
    && |run.states| == |run.steps| + 1
    && run.states[0] == {}
    && forall i :: 0 <= i < |run.steps| ==> GuardedNext(c, guard, run.states[i], run.steps[i], run.states[i + 1])
  }

  ghost predicate Reaches(c: Config, guard: Guard, ms: set<Msg>) {
    exists run :: IsGuardedRun(c, guard, run) && run.states[|run.steps|] == ms
  }

  /** No view is both finalized and nullified. */
  ghost predicate Exclusive(c: Config, ms: set<Msg>) {
    forall b :: LNotarized(c, ms, b) ==> !Nullified(c, ms, View(b))
  }

  /** Any two finalized blocks lie on one branch. */
  ghost predicate OneBranch(c: Config, ms: set<Msg>) {
    forall b, b' :: LNotarized(c, ms, b) && LNotarized(c, ms, b') ==> Extends(b', b) || Extends(b, b')
  }

  // ---- Reaching states ----

  lemma {:induction false} ReachesStart(c: Config, guard: Guard)
    ensures Reaches(c, guard, {})
  {
    assert IsGuardedRun(c, guard, Run([{}], []));
  }

  lemma {:induction false} ReachesNext(c: Config, guard: Guard, ms: set<Msg>, step: Step, ms': set<Msg>)
    requires Reaches(c, guard, ms) && GuardedNext(c, guard, ms, step, ms')
    ensures Reaches(c, guard, ms')
  {
    var run :| IsGuardedRun(c, guard, run) && run.states[|run.steps|] == ms;
    var run' := Run(run.states + [ms'], run.steps + [step]);
    forall i | 0 <= i < |run'.steps|
      ensures GuardedNext(c, guard, run'.states[i], run'.steps[i], run'.states[i + 1])
    {
      if i < |run.steps| {
        assert GuardedNext(c, guard, run.states[i], run.steps[i], run.states[i + 1]);
      }
    }
    assert IsGuardedRun(c, guard, run') && run'.states[|run'.steps|] == ms';
  }

  /** Byzantine replicas send what they like. */
  lemma {:induction false} ReachesByzantine(c: Config, guard: Guard, ms: set<Msg>, extra: set<Msg>)
    requires Reaches(c, guard, ms) && forall m :: m in extra ==> m.sender in c.byz
    ensures Reaches(c, guard, ms + extra)
    decreases |extra|
  {
    if extra == {} {
      assert ms + extra == ms;
    } else {
      var m :| m in extra;
      ReachesNext(c, guard, ms, ByzantineStep(m), ms + {m});
      ReachesByzantine(c, guard, ms + {m}, extra - {m});
      assert ms + {m} + (extra - {m}) == ms + extra;
    }
  }

  /** Correct replicas that have been silent in its view vote for a justified block. */
  lemma {:induction false} ReachesVotes(c: Config, guard: Guard, ms: set<Msg>, voters: set<int>, b: Block)
    requires Reaches(c, guard, ms) && Justified(c, ms, b)
    requires forall r :: r in voters ==> Correct(c, r) && !VotedInView(ms, r, b.view) && Nullify(r, b.view) !in ms
    ensures Reaches(c, guard, ms + VotesFrom(voters, b))
    decreases |voters|
  {
    if voters == {} {
      assert ms + VotesFrom(voters, b) == ms;
    } else {
      var r :| r in voters;
      var ms1, rest := ms + {Vote(r, b)}, voters - {r};
      ReachesNext(c, guard, ms, VoteStep(r, b, ms), ms1);
      JustifiedGrows(c, ms, ms1, b);
      ReachesVotes(c, guard, ms1, rest, b);
      assert ms1 + VotesFrom(rest, b) == ms + VotesFrom(voters, b);
    }
  }

  /** Correct replicas nullify a view: the guard accepts the evidence for whatever they
      voted for in it. */
  lemma {:induction false} ReachesNullifies(
    c: Config, guard: Guard, ms: set<Msg>, recv: set<Msg>, senders: set<int>, v: nat)
    requires Reaches(c, guard, ms) && recv <= ms
    requires forall r :: r in senders ==> Correct(c, r)
    requires forall r, b :: r in senders && Vote(r, b) in ms && View(b) == v ==> guard(recv, b)
    ensures Reaches(c, guard, ms + NullifiesFrom(senders, v))
    decreases |senders|
  {
    if senders == {} {
      assert ms + NullifiesFrom(senders, v) == ms;
    } else {
      var r := Member(senders);
      var ms1, rest := ms + {Nullify(r, v)}, senders - {r};
      ReachesNext(c, guard, ms, NullifyStep(r, v, recv), ms1);
      ReachesNullifies(c, guard, ms1, recv, rest, v);
      assert ms1 + NullifiesFrom(rest, v) == ms + NullifiesFrom(senders, v);
    }
  }

  /** A weaker guard allows every run that a stronger one does. */
  lemma {:induction false} ReachesUnderWeaker(c: Config, guard: Guard, weaker: Guard, ms: set<Msg>)
    requires Reaches(c, guard, ms) && forall recv, b :: guard(recv, b) ==> weaker(recv, b)
    ensures Reaches(c, weaker, ms)
  {
    var run :| IsGuardedRun(c, guard, run) && run.states[|run.steps|] == ms;
    forall i | 0 <= i < |run.steps|
      ensures GuardedNext(c, weaker, run.states[i], run.steps[i], run.states[i + 1])
    {
      assert GuardedNext(c, guard, run.states[i], run.steps[i], run.states[i + 1]);
    }
    assert IsGuardedRun(c, weaker, run);
  }

  // ---- What a rule keeps ----

  /** Every run under the rule keeps Lemma 5.3. */
  ghost predicate KeepsLemma(n: nat, f: nat, rule: Rule) {
    forall byz: set<int>, ms: set<Msg> ::
      var c := Config(n, f, byz); ValidConfig(c) && Reaches(c, rule(c), ms) ==> Exclusive(c, ms)
  }

  /** Every run under the rule keeps the finalized blocks on one branch. */
  ghost predicate KeepsConsistency(n: nat, f: nat, rule: Rule) {
    forall byz: set<int>, ms: set<Msg> ::
      var c := Config(n, f, byz); ValidConfig(c) && Reaches(c, rule(c), ms) ==> OneBranch(c, ms)
  }

  /** The guard accepts nothing but more than 2F opponents. */
  ghost predicate Demanding(c: Config, guard: Guard) {
    forall recv, b :: guard(recv, b) ==> |Opponents(c, recv, b)| > 2 * c.f
  }

  lemma {:induction false} DocumentedRun(c: Config, run: Run)
    requires ValidConfig(c) && c.n >= 3 * c.f + 1 && IsRun(c, run)
    ensures var ms := run.states[|run.steps|]; Exclusive(c, ms) && OneBranch(c, ms)
  {
    var ms := run.states[|run.steps|];
    forall b | LNotarized(c, ms, b)
      ensures !Nullified(c, ms, View(b))
    {
      NeverFinalizedAndNullified(c, run, |run.steps|, b);
    }
    forall b, b' | LNotarized(c, ms, b) && LNotarized(c, ms, b')
      ensures Extends(b', b) || Extends(b, b')
    {
      Consistency(c, run, |run.steps|, b, b');
    }
  }

  /** Under a demanding guard every run follows the documented rule. */
  lemma {:induction false} DemandingRun(c: Config, guard: Guard, ms: set<Msg>) returns (run: Run)
    requires Demanding(c, guard) && Reaches(c, guard, ms)
    ensures IsRun(c, run) && run.states[|run.steps|] == ms
  {
    run :| IsGuardedRun(c, guard, run) && run.states[|run.steps|] == ms;
    forall i | 0 <= i < |run.steps|
      ensures Next(c, run.states[i], run.steps[i], run.states[i + 1])
    {
      assert GuardedNext(c, guard, run.states[i], run.steps[i], run.states[i + 1]);
    }
  }

  lemma {:induction false} DemandingIsSafe(c: Config, guard: Guard, ms: set<Msg>)
    requires ValidConfig(c) && c.n >= 3 * c.f + 1 && Demanding(c, guard) && Reaches(c, guard, ms)
    ensures Exclusive(c, ms) && OneBranch(c, ms)
  {
    var run := DemandingRun(c, guard, ms);
    DocumentedRun(c, run);
  }

  // ---- Guards by number of distinct replicas ----

  /** More than `t` conflicting voters, or more than `s` conflicting voters and nullifiers
      counted separately, or more than 2F distinct opponents. */
  ghost predicate Allows(c: Config, t: nat, s: nat, recv: set<Msg>, b: Block) {
    || |ConflictingVoters(c, recv, b)| > t
    || |ConflictingVoters(c, recv, b)| + |Nullifiers(c, recv, View(b))| > s
    || |Opponents(c, recv, b)| > 2 * c.f
  }

  ghost function Counting(c: Config, t: nat, s: nat): Guard {
    (recv: set<Msg>, b: Block) => Allows(c, t, s, recv, b)
  }

  ghost function CountingRule(t: nat, s: nat): Rule {
    (c: Config) => Counting(c, t, s)
  }

  /** The test of `nullify_view`, on distinct replicas, has the thresholds F and 2F. */
  lemma {:induction false} SourceThresholds(c: Config, recv: set<Msg>, b: Block)
    ensures Allows(c, c.f, 2 * c.f, recv, b) <==>
      StrongEvidence(c.f, |ConflictingVoters(c, recv, b)|, |Nullifiers(c, recv, View(b))|)
  {
    CombinedCount(c, recv, b);
  }

  // ---- Enough evidence ----

  lemma {:induction false} OpponentsInclude(c: Config, recv: set<Msg>, b: Block)
    ensures |ConflictingVoters(c, recv, b)| <= |Opponents(c, recv, b)|
    ensures |Nullifiers(c, recv, View(b))| <= |Opponents(c, recv, b)|
  {
    SubsetSize(ConflictingVoters(c, recv, b), Opponents(c, recv, b));
    SubsetSize(Nullifiers(c, recv, View(b)), Opponents(c, recv, b));
  }

  lemma {:induction false} CountingDemands(c: Config, t: nat, s: nat)
    requires t >= 2 * c.f && s >= 4 * c.f
    ensures Demanding(c, Counting(c, t, s))
  {
    forall recv, b | Counting(c, t, s)(recv, b)
      ensures |Opponents(c, recv, b)| > 2 * c.f
    {
      OpponentsInclude(c, recv, b);
    }
  }

  // ---- Too little evidence ----

  const THIRD := Block(2, Genesis, 0)

  /** From a state with a finalized and nullified first view, the correct replicas vote in
      view 2 for a block that bypasses the finalized one. */
  lemma {:induction false} ThirdCounts(c: Config, ms: set<Msg>)
    requires ValidConfig(c)
    ensures |Voters(c, ms + VotesFrom(Replicas(c) - c.byz, THIRD), THIRD)| >= c.n - c.f
  {
    var correct := Replicas(c) - c.byz;
    SubsetSize(correct, Voters(c, ms + VotesFrom(correct, THIRD), THIRD));
    assert Replicas(c) == correct + c.byz;
    DisjointSize(correct, c.byz);
  }

  lemma {:induction false} ReachesThird(c: Config, guard: Guard, ms: set<Msg>)
    requires Reaches(c, guard, ms) && Nullified(c, ms, 1)
    requires forall m :: m in ms ==> if m.Vote? then View(m.block) == 1 else m.view == 1
    ensures Reaches(c, guard, ms + VotesFrom(Replicas(c) - c.byz, THIRD))
  {
    assert Justified(c, ms, THIRD);
    ReachesVotes(c, guard, ms, Replicas(c) - c.byz, THIRD);
  }

  lemma {:induction false} Forks(c: Config, guard: Guard, ms: set<Msg>)
    requires ValidConfig(c) && Reaches(c, guard, ms)
    requires LNotarized(c, ms, FIRST) && Nullified(c, ms, 1)
    requires forall m :: m in ms ==> if m.Vote? then View(m.block) == 1 else m.view == 1
    ensures exists ms' :: Reaches(c, guard, ms') && !OneBranch(c, ms')
  {
    var ms' := ms + VotesFrom(Replicas(c) - c.byz, THIRD);
    ReachesThird(c, guard, ms);
    ThirdCounts(c, ms);
    VotersGrow(c, ms, ms', FIRST);
    assert LNotarized(c, ms', THIRD) && LNotarized(c, ms', FIRST);
    assert !Extends(THIRD, FIRST) && !Extends(FIRST, THIRD);
  }

  lemma {:induction false} SecondViewCounts(c: Config, first: set<int>, second: set<int>, nullifiers: set<int>)
    requires first <= Replicas(c)
    ensures ConflictingVoters(c, FirstView(first, second, nullifiers), SECOND) == first
  {
    var ms := FirstView(first, second, nullifiers);
    forall r | r in first
      ensures VotesOther(ms, r, SECOND)
    {
      assert Vote(r, FIRST) in ms;
    }
    forall r | VotesOther(ms, r, SECOND)
      ensures r in first
    {
      assert Vote(r, FIRST) in ms;
    }
  }

  /** N-F replicas vote for the first block and 2F for the second; those that vote for
      both are the Byzantine ones. */
  ghost predicate Splits(c: Config, first: set<int>, second: set<int>) {
    && c.byz <= first <= Replicas(c) && c.byz <= second <= Replicas(c)
    && (forall r :: r in first && r in second ==> r in c.byz)
    && |first| == c.n - c.f && |second| == 2 * c.f
  }

  lemma {:induction false} ReachesLoyal(c: Config, guard: Guard, loyal: set<int>)
    requires forall r :: r in loyal ==> Correct(c, r)
    ensures Reaches(c, guard, VotesFrom(loyal, FIRST))
  {
    ReachesStart(c, guard);
    assert Justified(c, {}, FIRST);
    ReachesVotes(c, guard, {}, loyal, FIRST);
    assert {} + VotesFrom(loyal, FIRST) == VotesFrom(loyal, FIRST);
  }

  lemma {:induction false} ReachesBoth(c: Config, guard: Guard, loyal: set<int>, others: set<int>)
    requires forall r :: r in loyal ==> Correct(c, r)
    requires forall r :: r in others ==> Correct(c, r) && r !in loyal
    ensures Reaches(c, guard, VotesFrom(loyal, FIRST) + VotesFrom(others, SECOND))
  {
    var ms := VotesFrom(loyal, FIRST);
    ReachesLoyal(c, guard, loyal);
    assert Justified(c, ms, SECOND);
    ReachesVotes(c, guard, ms, others, SECOND);
  }

  lemma {:induction false} SplitMessages(first: set<int>, second: set<int>, byz: set<int>)
    requires byz <= first && byz <= second
    ensures VotesFrom(first - byz, FIRST) + VotesFrom(second - byz, SECOND)
            + (VotesFrom(byz, FIRST) + VotesFrom(byz, SECOND) + NullifiesFrom(byz, 1))
            == FirstView(first, second, byz)
  {
  }

  /** Correct replicas vote, and then the Byzantine ones vote for both blocks and nullify. */
  lemma {:induction false} ReachesSplit(c: Config, guard: Guard, first: set<int>, second: set<int>)
    requires Splits(c, first, second)
    ensures Reaches(c, guard, FirstView(first, second, c.byz))
  {
    var loyal, others := first - c.byz, second - c.byz;
    ReachesBoth(c, guard, loyal, others);
    ReachesByzantine(c, guard, VotesFrom(loyal, FIRST) + VotesFrom(others, SECOND),
                     VotesFrom(c.byz, FIRST) + VotesFrom(c.byz, SECOND) + NullifiesFrom(c.byz, 1));
    SplitMessages(first, second, c.byz);
  }

  lemma {:induction false} MoreNullifiers(
    first: set<int>, second: set<int>, earlier: set<int>, more: set<int>, byz: set<int>)
    requires byz <= earlier
    ensures FirstView(first, second, earlier) + NullifiesFrom(more - byz, 1) == FirstView(first, second, earlier + more)
  {
  }

  /** The voters of the second block find N-F opponents, and nullify under every guard. */
  lemma {:induction false} OthersNullify(c: Config, t: nat, s: nat, first: set<int>, second: set<int>)
    requires Splits(c, first, second) && c.n >= 3 * c.f + 1
    ensures Reaches(c, Counting(c, t, s), FirstView(first, second, c.byz + second))
  {
    var ms := FirstView(first, second, c.byz);
    ReachesSplit(c, Counting(c, t, s), first, second);
    SecondViewCounts(c, first, second, c.byz);
    OpponentsInclude(c, ms, SECOND);
    assert Allows(c, t, s, ms, SECOND);
    ReachesNullifies(c, Counting(c, t, s), ms, ms, second - c.byz, 1);
    MoreNullifiers(first, second, c.byz, second, c.byz);
  }

  /** The voters of the first block nullify if the guard accepts 2F conflicting voters and
      the nullifiers so far. */
  lemma {:induction false} LoyalNullify(c: Config, t: nat, s: nat, first: set<int>, second: set<int>, earlier: set<int>)
    requires Splits(c, first, second)
    requires c.byz <= earlier <= Replicas(c) && (2 * c.f > t || 2 * c.f + |earlier| > s)
    requires Reaches(c, Counting(c, t, s), FirstView(first, second, earlier))
    ensures Reaches(c, Counting(c, t, s), FirstView(first, second, earlier + first))
  {
    var ms := FirstView(first, second, earlier);
    FirstViewCounts(c, first, second, earlier);
    assert Allows(c, t, s, ms, FIRST);
    ReachesNullifies(c, Counting(c, t, s), ms, ms, first - c.byz, 1);
    MoreNullifiers(first, second, earlier, first, c.byz);
  }

  /** Then the first view is finalized and nullified. */
  lemma {:induction false} BrokenView(c: Config, first: set<int>, second: set<int>, nullifiers: set<int>)
    requires Splits(c, first, second) && c.n >= 3 * c.f + 1 && first <= nullifiers <= Replicas(c)
    ensures var ms := FirstView(first, second, nullifiers); LNotarized(c, ms, FIRST) && Nullified(c, ms, 1)
  {
    FirstViewCounts(c, first, second, nullifiers);
    SubsetSize(first, nullifiers);
  }

  lemma {:induction false} Broken(c: Config, t: nat, s: nat, first: set<int>, second: set<int>, earlier: set<int>)
    requires ValidConfig(c) && Splits(c, first, second) && c.n >= 3 * c.f + 1
    requires c.byz <= earlier <= Replicas(c) && (2 * c.f > t || 2 * c.f + |earlier| > s)
    requires Reaches(c, Counting(c, t, s), FirstView(first, second, earlier))
    ensures exists ms :: Reaches(c, Counting(c, t, s), ms) && !Exclusive(c, ms)
    ensures exists ms :: Reaches(c, Counting(c, t, s), ms) && !OneBranch(c, ms)
  {
    var ms := FirstView(first, second, earlier + first);
    LoyalNullify(c, t, s, first, second, earlier);
    BrokenView(c, first, second, earlier + first);
    assert View(FIRST) == 1 && !Exclusive(c, ms);
    Forks(c, Counting(c, t, s), ms);
  }

  lemma {:induction false} RangesSplit(n: nat, f: nat)
    requires n >= 2 * f
    ensures var c := Config(n, f, Range(n - f, n));
      ValidConfig(c) && Splits(c, Range(0, n - 2 * f) + Range(n - f, n), Range(n - 2 * f, n))
  {
    DisjointSize(Range(0, n - 2 * f), Range(n - f, n));
  }

  /** The last `f` replicas are Byzantine. */
  function LastAre(n: nat, f: nat): Config
    requires f <= n
  {
    Config(n, f, Range(n - f, n))
  }

  lemma {:induction false} TooLittleEvidence(n: nat, f: nat, t: nat, s: nat)
    requires n >= 3 * f + 1 && (t < 2 * f || s < 4 * f)
    ensures var c := LastAre(n, f);
      && (exists ms :: Reaches(c, Counting(c, t, s), ms) && !Exclusive(c, ms))
      && (exists ms :: Reaches(c, Counting(c, t, s), ms) && !OneBranch(c, ms))
  {
    var c := LastAre(n, f);
    var first, second := Range(0, n - 2 * f) + Range(n - f, n), Range(n - 2 * f, n);
    RangesSplit(n, f);
    if t < 2 * f {
      ReachesSplit(c, Counting(c, t, s), first, second);
      Broken(c, t, s, first, second, c.byz);
    } else {
      OthersNullify(c, t, s, first, second);
      SubsetSize(second, c.byz + second);
      Broken(c, t, s, first, second, c.byz + second);
    }
  }

  /** Under the evidence test alone, every run keeps Lemma 5.3, and every run keeps the
      finalized blocks on one branch, exactly if the test asks for more than 2F conflicting
      voters and for a combined count of more than 4F. The source asks for more than F and
      more than 2F. */
  lemma {:induction false} EvidenceNeeded(n: nat, f: nat, t: nat, s: nat)
    requires n >= 3 * f + 1
    ensures KeepsLemma(n, f, CountingRule(t, s)) <==> t >= 2 * f && s >= 4 * f
    ensures KeepsConsistency(n, f, CountingRule(t, s)) <==> t >= 2 * f && s >= 4 * f
  {
    if t >= 2 * f && s >= 4 * f {
      forall byz: set<int>, ms |
        ValidConfig(Config(n, f, byz)) && Reaches(Config(n, f, byz), CountingRule(t, s)(Config(n, f, byz)), ms)
        ensures Exclusive(Config(n, f, byz), ms) && OneBranch(Config(n, f, byz), ms)
      {
        CountingDemands(Config(n, f, byz), t, s);
        DemandingIsSafe(Config(n, f, byz), Counting(Config(n, f, byz), t, s), ms);
      }
    } else {
      TooLittleEvidence(n, f, t, s);
      assert ValidConfig(LastAre(n, f));
    }
  }

  /** With the thresholds of the source and at least one Byzantine replica, there are runs
      in which a finalized view is nullified, and runs that finalize conflicting blocks. */
  lemma {:induction false} SourceThresholdsBreak(n: nat, f: nat)
    requires f >= 1 && n >= 3 * f + 1
    ensures !KeepsLemma(n, f, CountingRule(f, 2 * f)) && !KeepsConsistency(n, f, CountingRule(f, 2 * f))
  {
    EvidenceNeeded(n, f, f, 2 * f);
  }
}
