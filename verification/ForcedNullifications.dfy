/** Nullification that asks for no evidence on the view itself: a replica leaves its current
    view because of an earlier one, even after it has voted. Exactly when every run of the
    whole rule keeps Lemma 5.3 and consistency. */
module ForcedNullifications {
  import opened Blocks
  import opened FiniteSets
  import opened Protocol
  import opened Evidence
  import opened Thresholds
  import opened VoteTallies

  /** An earlier block is M-notarized, and its view is nullified (the cascade) or, if `range`
      is set, shows conflicting evidence (the nullification of a range). */
  ghost predicate Forced(c: Config, guard: Guard, range: bool, recv: set<Msg>, b: Block) {
    exists a: Block :: a.Block? && View(a) < View(b) && MNotarized(c, recv, a)
      && (Nullified(c, recv, View(a)) || (range && guard(recv, a)))
  }

  ghost function Forcing(c: Config, guard: Guard, range: bool): Guard {
    (recv: set<Msg>, b: Block) => guard(recv, b) || Forced(c, guard, range, recv, b)
  }

  /** The whole rule of the source: its test of the evidence, or a forced nullification. */
  ghost function ForcingRule(rule: Rule, range: bool): Rule {
    (c: Config) => Forcing(c, rule(c), range)
  }

  // ---- N = 3F+1: nothing is ever forced ----

  lemma {:induction false} FewLeft<T>(voters: set<T>, byz: set<T>, lost: set<T>, all: set<T>, f: nat)
    requires voters <= all && lost <= all && |voters| >= 2 * f + 1 && |byz| <= f && |all| == 3 * f + 1
    requires forall p :: p in lost && p in voters ==> p in byz
    ensures |lost| <= 2 * f
  {
    var loyal := voters - byz;
    SubsetSize(voters, loyal + byz);
    assert |loyal + byz| <= |loyal| + |byz|;
    assert loyal !! lost;
    DisjointSize(loyal, lost);
    SubsetSize(loyal + lost, all);
  }

  /** The correct voters of a block are not lost to it. */
  lemma {:induction false} LoyalAreNotLost(c: Config, ms: set<Msg>, a: Block)
    requires ValidConfig(c) && c.n == 3 * c.f + 1 && |Voters(c, ms, a)| >= 2 * c.f + 1
    ensures |Lost(c, ms, a)| <= 2 * c.f
  {
    FewLeft(Voters(c, ms, a), c.byz, Lost(c, ms, a), Replicas(c), c.f);
  }

  /** A vote for the block and a word against it is a defection, if the replica is correct. */
  lemma {:induction false} LoyalOpponentDefects(c: Config, ms: set<Msg>, a: Block, p: int)
    requires VoteOnce(c, ms) && Correct(c, p) && Vote(p, a) in ms && Against(ms, p, a)
    ensures Defected(c, ms, a)
  {
  }

  /** With as few replicas, a block with 2F+1 votes never has more than 2F opponents. */
  lemma {:induction false} NotarizedHasFewOpponents(c: Config, ms: set<Msg>, a: Block)
    requires ValidConfig(c) && c.n == 3 * c.f + 1 && Inv(c, ms) && |Voters(c, ms, a)| >= 2 * c.f + 1
    ensures |Opponents(c, ms, a)| <= 2 * c.f
  {
    LoyalAreNotLost(c, ms, a);
    assert !Defected(c, ms, a);
    forall p | p in Opponents(c, ms, a)
      ensures p in Lost(c, ms, a)
    {
      if p !in c.byz && Vote(p, a) in ms {
        LoyalOpponentDefects(c, ms, a, p);
      }
    }
    SubsetSize(Opponents(c, ms, a), Lost(c, ms, a));
  }

  lemma {:induction false} OpponentsGrow(c: Config, ms: set<Msg>, ms': set<Msg>, a: Block)
    requires ms <= ms'
    ensures |Opponents(c, ms, a)| <= |Opponents(c, ms', a)|
  {
    forall p | p in Opponents(c, ms, a)
      ensures p in Opponents(c, ms', a)
    {
      AgainstGrows(ms, ms', p, a);
    }
    SubsetSize(Opponents(c, ms, a), Opponents(c, ms', a));
  }

  lemma {:induction false} NeverForced(
    c: Config, guard: Guard, range: bool, ms: set<Msg>, recv: set<Msg>, b: Block)
    requires ValidConfig(c) && c.n == 3 * c.f + 1 && Demanding(c, guard) && Inv(c, ms) && recv <= ms
    ensures !Forced(c, guard, range, recv, b)
  {
    if Forced(c, guard, range, recv, b) {
      var a: Block :| a.Block? && View(a) < View(b) && MNotarized(c, recv, a)
        && (Nullified(c, recv, View(a)) || (range && guard(recv, a)));
      OpponentsInclude(c, recv, a);
      OpponentsGrow(c, recv, ms, a);
      VotersGrow(c, recv, ms, a);
      NotarizedHasFewOpponents(c, ms, a);
      assert false;
    }
  }

  lemma {:induction false} ForcingStep(
    c: Config, guard: Guard, range: bool, ms: set<Msg>, step: Step, ms': set<Msg>)
    requires ValidConfig(c) && c.n == 3 * c.f + 1 && Demanding(c, guard) && Inv(c, ms)
    requires GuardedNext(c, Forcing(c, guard, range), ms, step, ms')
    ensures Next(c, ms, step, ms') && Inv(c, ms')
  {
    if step.NullifyStep? {
      forall b | Vote(step.r, b) in ms && View(b) == step.v
        ensures |Opponents(c, step.recv, b)| > 2 * c.f
      {
        NeverForced(c, guard, range, ms, step.recv, b);
        assert Forcing(c, guard, range)(step.recv, b);
      }
    }
    InvPreserved(c, ms, step, ms');
  }

  lemma {:induction false} ForcingInv(c: Config, guard: Guard, range: bool, run: Run, i: nat)
    requires ValidConfig(c) && c.n == 3 * c.f + 1 && Demanding(c, guard)
    requires IsGuardedRun(c, Forcing(c, guard, range), run) && i < |run.states|
    ensures Inv(c, run.states[i])
  {
    if i > 0 {
      var k := i - 1;
      ForcingInv(c, guard, range, run, k);
      assert GuardedNext(c, Forcing(c, guard, range), run.states[k], run.steps[k], run.states[k + 1]);
      ForcingStep(c, guard, range, run.states[k], run.steps[k], run.states[i]);
    }
  }

  /** So every run follows the documented rule. */
  lemma {:induction false} ForcingRun(c: Config, guard: Guard, range: bool, run: Run)
    requires ValidConfig(c) && c.n == 3 * c.f + 1 && Demanding(c, guard)
    requires IsGuardedRun(c, Forcing(c, guard, range), run)
    ensures IsRun(c, run)
  {
    forall i | 0 <= i < |run.steps|
      ensures Next(c, run.states[i], run.steps[i], run.states[i + 1])
    {
      ForcingInv(c, guard, range, run, i);
      assert GuardedNext(c, Forcing(c, guard, range), run.states[i], run.steps[i], run.states[i + 1]);
      ForcingStep(c, guard, range, run.states[i], run.steps[i], run.states[i + 1]);
    }
  }

  lemma {:induction false} ForcingIsSafe(c: Config, guard: Guard, range: bool, ms: set<Msg>)
    requires ValidConfig(c) && c.n == 3 * c.f + 1 && Demanding(c, guard)
    requires Reaches(c, Forcing(c, guard, range), ms)
    ensures Exclusive(c, ms) && OneBranch(c, ms)
  {
    var run :| IsGuardedRun(c, Forcing(c, guard, range), run) && run.states[|run.steps|] == ms;
    ForcingRun(c, guard, range, run);
    DocumentedRun(c, run);
  }

  // ---- N >= 3F+2: a cascade out of a finalized view ----

  const CHILD := Block(2, FIRST, 0)
  const BYPASS := Block(3, Genesis, 0)

  ghost function CorrectOnes(c: Config): set<int> {
    Replicas(c) - c.byz
  }

  lemma {:induction false} CorrectSize(c: Config)
    requires ValidConfig(c)
    ensures |CorrectOnes(c)| >= c.n - c.f
  {
    assert Replicas(c) == CorrectOnes(c) + c.byz;
    DisjointSize(CorrectOnes(c), c.byz);
  }

  /** View 1 is M-notarized by F+1 correct replicas and the Byzantine ones, and nullified by
      the other correct ones, which timed out, and the Byzantine ones. */
  ghost function Opening(c: Config, early: set<int>): set<Msg> {
    FirstView(early + c.byz, {}, (CorrectOnes(c) - early) + c.byz)
  }

  lemma {:induction false} OpeningMessages(c: Config, early: set<int>)
    ensures VotesFrom(early, FIRST) + (VotesFrom(c.byz, FIRST) + NullifiesFrom(c.byz, 1))
            + NullifiesFrom(CorrectOnes(c) - early, 1) == Opening(c, early)
  {
  }

  lemma {:induction false} ReachesOpening(c: Config, guard: Guard, early: set<int>)
    requires early <= CorrectOnes(c)
    ensures Reaches(c, guard, Opening(c, early))
  {
    var late := CorrectOnes(c) - early;
    var ms := VotesFrom(early, FIRST) + (VotesFrom(c.byz, FIRST) + NullifiesFrom(c.byz, 1));
    ReachesLoyal(c, guard, early);
    ReachesByzantine(c, guard, VotesFrom(early, FIRST), VotesFrom(c.byz, FIRST) + NullifiesFrom(c.byz, 1));
    ReachesNullifies(c, guard, ms, ms, late, 1);
    OpeningMessages(c, early);
  }

  lemma {:induction false} OpeningSizes(byz: set<int>, correct: set<int>, early: set<int>, f: nat)
    requires byz !! correct && early <= correct && |byz| == f && |early| == f + 1 && |correct| >= 2 * f + 2
    ensures |early + byz| >= 2 * f + 1 && |(correct - early) + byz| >= 2 * f + 1
  {
    DisjointSize(early, byz);
    DisjointSize(correct - early, byz);
    DisjointSize(early, correct - early);
    assert correct == early + (correct - early);
  }

  ghost predicate Opens(c: Config, early: set<int>) {
    && ValidConfig(c) && |c.byz| == c.f && c.n >= 3 * c.f + 2
    && early <= CorrectOnes(c) && |early| == c.f + 1
  }

  lemma {:induction false} OpeningCounts(c: Config, early: set<int>)
    requires Opens(c, early)
    ensures MNotarized(c, Opening(c, early), FIRST) && Nullified(c, Opening(c, early), 1)
  {
    CorrectSize(c);
    OpeningSizes(c.byz, CorrectOnes(c), early, c.f);
    FirstViewCounts(c, early + c.byz, {}, (CorrectOnes(c) - early) + c.byz);
  }

  /** Everyone correct votes for a block that nobody correct has spoken on the view of. */
  lemma {:induction false} ReachesAllVotes(c: Config, guard: Guard, ms: set<Msg>, b: Block)
    requires ValidConfig(c) && Reaches(c, guard, ms) && Justified(c, ms, b)
    requires forall m :: m in ms ==> if m.Vote? then View(m.block) < b.view else m.view < b.view
    ensures Reaches(c, guard, ms + VotesFrom(CorrectOnes(c), b))
    ensures LNotarized(c, ms + VotesFrom(CorrectOnes(c), b), b)
  {
    ReachesVotes(c, guard, ms, CorrectOnes(c), b);
    CorrectSize(c);
    SubsetSize(CorrectOnes(c), Voters(c, ms + VotesFrom(CorrectOnes(c), b), b));
  }

  /** All vote for a child of the notarized block; it is finalized. */
  ghost function Childed(c: Config, early: set<int>): set<Msg> {
    Opening(c, early) + VotesFrom(CorrectOnes(c), CHILD)
  }

  lemma {:induction false} ReachesChild(c: Config, guard: Guard, early: set<int>)
    requires Opens(c, early)
    ensures var ms := Childed(c, early);
      Reaches(c, guard, ms) && LNotarized(c, ms, CHILD) && MNotarized(c, ms, FIRST) && Nullified(c, ms, 1)
  {
    var ms := Opening(c, early);
    ReachesOpening(c, guard, early);
    OpeningCounts(c, early);
    assert View(FIRST) == 1 && Justified(c, ms, CHILD);
    ReachesAllVotes(c, guard, ms, CHILD);
    VotersGrow(c, ms, Childed(c, early), FIRST);
    NullifiersGrow(c, ms, Childed(c, early), 1);
  }

  /** The nullification of view 1 makes them all leave view 2. */
  ghost function CascadedOut(c: Config, early: set<int>): set<Msg> {
    Childed(c, early) + NullifiesFrom(CorrectOnes(c), 2)
  }

  lemma {:induction false} ForcedOut(c: Config, guard: Guard, range: bool, ms: set<Msg>, b: Block)
    requires MNotarized(c, ms, FIRST) && Nullified(c, ms, 1) && View(b) > 1
    ensures Forcing(c, guard, range)(ms, b)
  {
    assert View(FIRST) == 1 && FIRST.Block?;
    assert Forced(c, guard, range, ms, b);
  }

  lemma {:induction false} AllForcedOut(c: Config, guard: Guard, range: bool, ms: set<Msg>)
    requires Reaches(c, Forcing(c, guard, range), ms) && MNotarized(c, ms, FIRST) && Nullified(c, ms, 1)
    ensures Reaches(c, Forcing(c, guard, range), ms + NullifiesFrom(CorrectOnes(c), 2))
  {
    forall r, b | r in CorrectOnes(c) && Vote(r, b) in ms && View(b) == 2
      ensures Forcing(c, guard, range)(ms, b)
    {
      ForcedOut(c, guard, range, ms, b);
    }
    ReachesNullifies(c, Forcing(c, guard, range), ms, ms, CorrectOnes(c), 2);
  }

  lemma {:induction false} ReachesCascade(c: Config, guard: Guard, range: bool, early: set<int>)
    requires Opens(c, early)
    ensures Reaches(c, Forcing(c, guard, range), CascadedOut(c, early))
  {
    ReachesChild(c, Forcing(c, guard, range), early);
    AllForcedOut(c, guard, range, Childed(c, early));
  }

  lemma {:induction false} AllNullify(c: Config, ms: set<Msg>, v: nat)
    requires ValidConfig(c) && c.n >= 3 * c.f + 1
    ensures Nullified(c, ms + NullifiesFrom(CorrectOnes(c), v), v)
  {
    CorrectSize(c);
    SubsetSize(CorrectOnes(c), Nullifiers(c, ms + NullifiesFrom(CorrectOnes(c), v), v));
  }

  lemma {:induction false} CascadeCounts(c: Config, early: set<int>)
    requires Opens(c, early)
    ensures var ms := CascadedOut(c, early); LNotarized(c, ms, CHILD) && Nullified(c, ms, 1) && Nullified(c, ms, 2)
  {
    var ms := Childed(c, early);
    ReachesChild(c, Counting(c, 0, 0), early);
    VotersGrow(c, ms, CascadedOut(c, early), CHILD);
    NullifiersGrow(c, ms, CascadedOut(c, early), 1);
    AllNullify(c, ms, 2);
  }

  lemma {:induction false} BypassJustified(c: Config, ms: set<Msg>)
    requires Nullified(c, ms, 1) && Nullified(c, ms, 2)
    ensures Justified(c, ms, BYPASS)
  {
    forall v | 0 < v < 3
      ensures Nullified(c, ms, v)
    {
      assert v == 1 || v == 2;
    }
  }

  lemma {:induction false} CascadedMessages(c: Config, early: set<int>)
    ensures forall m :: m in CascadedOut(c, early) ==> if m.Vote? then View(m.block) < 3 else m.view < 3
  {
  }

  /** In view 3 they build on genesis, past the finalized block. */
  lemma {:induction false} ReachesBypass(c: Config, guard: Guard, range: bool, early: set<int>)
    requires Opens(c, early)
    ensures var ms := CascadedOut(c, early) + VotesFrom(CorrectOnes(c), BYPASS);
      Reaches(c, Forcing(c, guard, range), ms) && LNotarized(c, ms, CHILD) && LNotarized(c, ms, BYPASS)
  {
    var ms := CascadedOut(c, early);
    ReachesCascade(c, guard, range, early);
    CascadeCounts(c, early);
    BypassJustified(c, ms);
    CascadedMessages(c, early);
    ReachesAllVotes(c, Forcing(c, guard, range), ms, BYPASS);
    VotersGrow(c, ms, ms + VotesFrom(CorrectOnes(c), BYPASS), CHILD);
  }

  lemma {:induction false} BranchesDiffer(c: Config, ms: set<Msg>)
    requires LNotarized(c, ms, CHILD) && LNotarized(c, ms, BYPASS)
    ensures !OneBranch(c, ms)
  {
    assert !Extends(CHILD, BYPASS) && !Extends(BYPASS, CHILD);
  }

  lemma {:induction false} ViewsClash(c: Config, ms: set<Msg>)
    requires LNotarized(c, ms, CHILD) && Nullified(c, ms, 2)
    ensures !Exclusive(c, ms)
  {
    assert View(CHILD) == 2;
  }

  lemma {:induction false} CascadeForks(c: Config, guard: Guard, range: bool, early: set<int>)
    requires Opens(c, early)
    ensures exists ms :: Reaches(c, Forcing(c, guard, range), ms) && !Exclusive(c, ms)
    ensures exists ms :: Reaches(c, Forcing(c, guard, range), ms) && !OneBranch(c, ms)
  {
    ReachesCascade(c, guard, range, early);
    CascadeCounts(c, early);
    ViewsClash(c, CascadedOut(c, early));
    ReachesBypass(c, guard, range, early);
    BranchesDiffer(c, CascadedOut(c, early) + VotesFrom(CorrectOnes(c), BYPASS));
  }

  /** Whatever the test of the evidence, with more than 3F+1 replicas there are runs that
      nullify a finalized view, and runs that finalize conflicting blocks. */
  lemma {:induction false} CascadeBreaks(n: nat, f: nat, rule: Rule, range: bool)
    requires n >= 3 * f + 2
    ensures !KeepsLemma(n, f, ForcingRule(rule, range)) && !KeepsConsistency(n, f, ForcingRule(rule, range))
  {
    var c := LastAre(n, f);
    assert Range(0, f + 1) <= CorrectOnes(c);
    CascadeForks(c, rule(c), range, Range(0, f + 1));
    assert ValidConfig(c) && ForcingRule(rule, range)(c) == Forcing(c, rule(c), range);
  }

  // ---- The exact conditions ----

  /** A test that is too weak on its own stays so. */
  lemma {:induction false} ForcingInherits(c: Config, guard: Guard, range: bool)
    ensures forall ms :: Reaches(c, guard, ms) ==> Reaches(c, Forcing(c, guard, range), ms)
  {
    forall ms | Reaches(c, guard, ms)
      ensures Reaches(c, Forcing(c, guard, range), ms)
    {
      ReachesUnderWeaker(c, guard, Forcing(c, guard, range), ms);
    }
  }

  lemma {:induction false} ForcingBreaks(n: nat, f: nat, rule: Rule, range: bool)
    requires f <= n
    requires exists ms :: Reaches(LastAre(n, f), rule(LastAre(n, f)), ms) && !Exclusive(LastAre(n, f), ms)
    requires exists ms :: Reaches(LastAre(n, f), rule(LastAre(n, f)), ms) && !OneBranch(LastAre(n, f), ms)
    ensures !KeepsLemma(n, f, ForcingRule(rule, range)) && !KeepsConsistency(n, f, ForcingRule(rule, range))
  {
    var c := LastAre(n, f);
    ForcingInherits(c, rule(c), range);
    assert ValidConfig(c) && ForcingRule(rule, range)(c) == Forcing(c, rule(c), range);
  }

  lemma {:induction false} ForcingKeeps(n: nat, f: nat, rule: Rule, range: bool)
    requires n == 3 * f + 1 && forall byz: set<int> :: Demanding(Config(n, f, byz), rule(Config(n, f, byz)))
    ensures KeepsLemma(n, f, ForcingRule(rule, range)) && KeepsConsistency(n, f, ForcingRule(rule, range))
  {
    forall byz: set<int>, ms |
      var c := Config(n, f, byz); ValidConfig(c) && Reaches(c, ForcingRule(rule, range)(c), ms)
      ensures Exclusive(Config(n, f, byz), ms) && OneBranch(Config(n, f, byz), ms)
    {
      var c := Config(n, f, byz);
      assert Demanding(c, rule(c));
      ForcingIsSafe(c, rule(c), range, ms);
    }
  }

  /** With the cascade, and with or without the nullification of a range, every run keeps
      Lemma 5.3, and every run keeps the finalized blocks on one branch, exactly if the
      thresholds are at least 2F and 4F and there are 3F+1 replicas. */
  lemma {:induction false} SafeExactly(n: nat, f: nat, t: nat, s: nat, range: bool)
    requires n >= 3 * f + 1
    ensures var rule := ForcingRule(CountingRule(t, s), range); var safe := t >= 2 * f && s >= 4 * f && n == 3 * f + 1;
      (KeepsLemma(n, f, rule) <==> safe) && (KeepsConsistency(n, f, rule) <==> safe)
  {
    if n > 3 * f + 1 {
      CascadeBreaks(n, f, CountingRule(t, s), range);
    } else if t >= 2 * f && s >= 4 * f {
      forall byz: set<int>
        ensures Demanding(Config(n, f, byz), CountingRule(t, s)(Config(n, f, byz)))
      {
        CountingDemands(Config(n, f, byz), t, s);
      }
      ForcingKeeps(n, f, CountingRule(t, s), range);
    } else {
      TooLittleEvidence(n, f, t, s);
      ForcingBreaks(n, f, CountingRule(t, s), range);
    }
  }

  /** The source has the thresholds F and 2F: on distinct replicas, only a single replica is
      safe. */
  lemma {:induction false} SourceSafeExactly(n: nat, f: nat)
    requires n >= 3 * f + 1
    ensures var rule := ForcingRule(CountingRule(f, 2 * f), true);
      (KeepsLemma(n, f, rule) <==> n == 1) && (KeepsConsistency(n, f, rule) <==> n == 1)
  {
    SafeExactly(n, f, f, 2 * f, true);
  }

  /** No thresholds help where N >= 5F+1, as the source asks. */
  lemma {:induction false} NoThresholdsHelp(n: nat, f: nat, t: nat, s: nat, range: bool)
    requires n >= 5 * f + 1
    ensures var rule := ForcingRule(CountingRule(t, s), range);
      (KeepsLemma(n, f, rule) <==> n == 1) && (KeepsConsistency(n, f, rule) <==> n == 1)
  {
    SafeExactly(n, f, t, s, range);
  }

  /** And with the counter of messages that the source reads, whatever its thresholds. */
  lemma {:induction false} CounterSafeExactly(n: nat, f: nat, t: nat, s: nat, range: bool)
    requires n >= 3 * f + 1
    ensures var rule := ForcingRule(TallyingRule(t, s), range);
      (KeepsLemma(n, f, rule) <==> n == 1) && (KeepsConsistency(n, f, rule) <==> n == 1)
  {
    if n > 3 * f + 1 {
      CascadeBreaks(n, f, TallyingRule(t, s), range);
    } else if f == 0 {
      forall byz: set<int>
        ensures Demanding(Config(n, f, byz), TallyingRule(t, s)(Config(n, f, byz)))
      {
        TallyingDemands(Config(n, f, byz), t, s);
      }
      ForcingKeeps(n, f, TallyingRule(t, s), range);
    } else {
      StormsBreak(n, f, t, s);
      ForcingBreaks(n, f, TallyingRule(t, s), range);
    }
  }
}
