/** Why `LedgersAgree` asks for held ancestors: a replica that finalizes without them writes
    a ledger that disagrees with the others, although every message follows the rules. */
module LedgerDisagreements {
  import opened Wrappers
  import opened Blocks
  import opened ChainState
  import opened Finalization
  import opened ChainRuns
  import opened DeferredFinalization
  import opened ReplicatedLedgers
  import opened StateDiffs
  import opened Limits
  import FiniteSets
  import Protocol
  import Evidence
  import Thresholds
  import ForcedNullifications

  // ---- The messages ----

  /** View 1 is M-notarized and nullified; then all correct replicas vote for a child and a
      grandchild of its block. */
  ghost function Votes(c: Protocol.Config, early: set<int>): set<Protocol.Msg> {
    ForcedNullifications.Childed(c, early) + Evidence.VotesFrom(ForcedNullifications.CorrectOnes(c), B3)
  }

  lemma {:induction false} EarlierViews(c: Protocol.Config, early: set<int>)
    ensures forall m :: m in ForcedNullifications.Childed(c, early) ==>
      if m.Vote? then View(m.block) < 3 else m.view < 3
  {
  }

  lemma {:induction false} VotesAreSent(c: Protocol.Config, early: set<int>)
    requires ForcedNullifications.Opens(c, early)
    ensures Sent(c, Votes(c, early)) && Protocol.LNotarized(c, Votes(c, early), B3)
    ensures Protocol.MNotarized(c, Votes(c, early), B1) && Protocol.Nullified(c, Votes(c, early), 1)
  {
    var guard, ms := Thresholds.Counting(c, 2 * c.f, 4 * c.f), ForcedNullifications.Childed(c, early);
    ForcedNullifications.ReachesChild(c, guard, early);
    assert B2 == ForcedNullifications.CHILD && B1 == Evidence.FIRST && View(B2) == 2;
    assert Protocol.Justified(c, ms, B3);
    EarlierViews(c, early);
    ForcedNullifications.ReachesAllVotes(c, guard, ms, B3);
    Thresholds.CountingDemands(c, 2 * c.f, 4 * c.f);
    var run := Thresholds.DemandingRun(c, guard, Votes(c, early));
    assert 0 <= |run.steps| < |run.states|;
    Protocol.VotersGrow(c, ms, Votes(c, early), B1);
    Protocol.NullifiersGrow(c, ms, Votes(c, early), 1);
  }

  // ---- Runs of one replica on them ----

  ghost predicate EndsIn(q: nat, conf: Protocol.Config, ms: set<Protocol.Msg>, run: Run, c: Chain) {
    VotedRun(q, run, conf, ms) && run.states[|run.steps|] == c
  }

  lemma {:induction false} VotedNext(
    q: nat, conf: Protocol.Config, ms: set<Protocol.Msg>, run: Run, c: Chain, step: Step, c': Chain)
    returns (run': Run)
    requires EndsIn(q, conf, ms, run, c) && Next(c, q, step, c') && VotesWereSent(c', conf, ms)
    ensures EndsIn(q, conf, ms, run', c') && |run'.steps| == |run.steps| + 1
    ensures run'.states[..|run.states|] == run.states && run'.steps == run.steps + [step]
  {
    run' := Run(run.states + [c'], run.steps + [step]);
    forall i | 0 <= i < |run'.steps|
      ensures Next(run'.states[i], q, run'.steps[i], run'.states[i + 1])
    {
      if i < |run.steps| {
        assert Next(run.states[i], q, run.steps[i], run.states[i + 1]);
      }
    }
  }

  /** Only the block of view 3 has votes. */
  ghost predicate OnlyThird(c: Chain) {
    forall u :: u in c.views ==> c.views[u].votes == {} || c.views[u].block == Some(B3)
  }

  lemma {:induction false} OnlyThirdSent(c: Chain, conf: Protocol.Config, ms: set<Protocol.Msg>)
    requires OnlyThird(c) && Protocol.LNotarized(conf, ms, B3) && conf.n > conf.f
    ensures VotesWereSent(c, conf, ms)
  {
  }

  /** The current view gets state `ctx`, and the replica enters the next view. */
  lemma {:induction false} VotedAdvance(
    q: nat, conf: Protocol.Config, ms: set<Protocol.Msg>, run: Run, c: Chain, ctx: Ctx) returns (run': Run)
    requires Protocol.LNotarized(conf, ms, B3) && conf.n > conf.f
    requires EndsIn(q, conf, ms, run, c) && OnlyThird(c) && c.current in c.views
    requires CtxStep(c.current, c.views[c.current], ctx) && ctx.mNot.Some? && (ctx.votes == {} || ctx.block == Some(B3))
    ensures EndsIn(q, conf, ms, run', Advance(c, ctx)) && OnlyThird(Advance(c, ctx))
    ensures NoFinalization(run) ==> NoFinalization(run')
  {
    var c1 := c.(views := c.views[c.current := ctx]);
    assert OnlyThird(c1) && OnlyThird(Advance(c, ctx));
    OnlyThirdSent(c1, conf, ms);
    OnlyThirdSent(Advance(c, ctx), conf, ms);
    var run1 := VotedNext(q, conf, ms, run, c, Update(c.current, ctx), c1);
    run' := VotedNext(q, conf, ms, run1, c1, ProgressMNotarized(ctx.mNot.value), Advance(c, ctx));
  }

  ghost predicate NoFinalization(run: Run) {
    forall step :: step in run.steps ==> !step.FinalizeAt?
  }

  lemma {:induction false} VotedStart(q: nat, conf: Protocol.Config, ms: set<Protocol.Msg>) returns (run: Run)
    requires Protocol.LNotarized(conf, ms, B3) && conf.n > conf.f
    ensures EndsIn(q, conf, ms, run, Init()) && run.steps == []
  {
    run := Run([Init()], []);
    OnlyThirdSent(Init(), conf, ms);
  }

  /** The first view in state `ctx`, the second on `parent`. */
  function TwoViews(ctx: Ctx, parent: Hash): Chain {
    Chain(2, map[1 := ctx, 2 := NewCtx(parent)], Genesis, [], map[], 0, [], [], {})
  }

  /** Both later blocks are notarized, and the third has votes. */
  function FourViews(ctx: Ctx, parent: Hash, votes: set<PeerId>): Chain {
    Chain(4, map[1 := ctx, 2 := Notarized(parent, B2, {}), 3 := Notarized(B2, B3, votes), 4 := NewCtx(B3)],
          Genesis, [], map[], 0, [], [], {})
  }

  function MidViews(ctx: Ctx, parent: Hash): Chain {
    Chain(3, map[1 := ctx, 2 := Notarized(parent, B2, {}), 3 := NewCtx(B2)], Genesis, [], map[], 0, [], [], {})
  }

  lemma {:induction false} AdvanceTwice(ctx: Ctx, parent: Hash, votes: set<PeerId>)
    ensures Advance(TwoViews(ctx, parent), Notarized(parent, B2, {})) == MidViews(ctx, parent)
    ensures Advance(MidViews(ctx, parent), Notarized(B2, B3, votes)) == FourViews(ctx, parent, votes)
  {
  }

  lemma {:induction false} VotedFour(
    q: nat, conf: Protocol.Config, ms: set<Protocol.Msg>, run: Run, ctx: Ctx, parent: Hash, votes: set<PeerId>)
    returns (run': Run)
    requires Protocol.LNotarized(conf, ms, B3) && conf.n > conf.f && ctx.votes == {}
    requires WellFormed(parent) && View(parent) < 2
    requires EndsIn(q, conf, ms, run, TwoViews(ctx, parent)) && NoFinalization(run)
    ensures EndsIn(q, conf, ms, run', FourViews(ctx, parent, votes)) && NoFinalization(run')
  {
    AdvanceTwice(ctx, parent, votes);
    var run1 := VotedAdvance(q, conf, ms, run, TwoViews(ctx, parent), Notarized(parent, B2, {}));
    run' := VotedAdvance(q, conf, ms, run1, MidViews(ctx, parent), Notarized(B2, B3, votes));
  }

  /** One replica left view 1 by its nullification and never got its block. */
  lemma {:induction false} Latecomer(q: nat, conf: Protocol.Config, ms: set<Protocol.Msg>, votes: set<PeerId>)
    returns (run: Run)
    requires Protocol.LNotarized(conf, ms, B3) && conf.n > conf.f
    ensures EndsIn(q, conf, ms, run, FourViews(Nulled(None), Genesis, votes)) && NoFinalization(run)
  {
    var c1 := Init().(views := map[1 := Nulled(None)]);
    var run0 := VotedStart(q, conf, ms);
    OnlyThirdSent(c1, conf, ms);
    var run1 := VotedNext(q, conf, ms, run0, Init(), Update(1, Nulled(None)), c1);
    assert IsSelectedParent(c1, 2, Genesis) && Enter(c1, Genesis) == TwoViews(Nulled(None), Genesis);
    OnlyThirdSent(TwoViews(Nulled(None), Genesis), conf, ms);
    var run2 := VotedNext(q, conf, ms, run1, c1, ProgressNullified(Genesis), TwoViews(Nulled(None), Genesis));
    run := VotedFour(q, conf, ms, run2, Nulled(None), Genesis, votes);
  }

  /** Another one saw every view notarized. */
  lemma {:induction false} Regular(q: nat, conf: Protocol.Config, ms: set<Protocol.Msg>, votes: set<PeerId>)
    returns (run: Run)
    requires Protocol.LNotarized(conf, ms, B3) && conf.n > conf.f
    ensures EndsIn(q, conf, ms, run, FourViews(Notarized(Genesis, B1, {}), B1, votes)) && NoFinalization(run)
  {
    var run0 := VotedStart(q, conf, ms);
    var run1 := VotedAdvance(q, conf, ms, run0, Init(), Notarized(Genesis, B1, {}));
    assert Advance(Init(), Notarized(Genesis, B1, {})) == TwoViews(Notarized(Genesis, B1, {}), B1);
    run := VotedFour(q, conf, ms, run1, Notarized(Genesis, B1, {}), B1, votes);
  }

  // ---- What they write ----

  lemma {:induction false} ThirdRemains(q: nat, run: Run, c: Chain)
    requires IsRun(q, run) && run.states[|run.steps|] == c && OnlyThird(c) && c.current != 3
    ensures OnlyThird(Finalize(c, q, 3).0)
  {
    EveryRunIsStructured(q, run, |run.steps|);
    FinalizeShrinks(c, q, 3);
  }

  /** Only the last step finalizes. */
  lemma {:induction false} HeldAtLast(q: nat, run: Run, c: Chain, v: nat, run': Run)
    requires |run.steps| < |run.states| && run.states[|run.steps|] == c && NoFinalization(run) && HeldFor(c, q, v)
    requires run'.steps == run.steps + [FinalizeAt(v)] && |run'.steps| < |run'.states| && |run.states| <= |run'.states|
    requires run'.states[..|run.states|] == run.states
    ensures HeldRun(q, run')
  {
    forall i | 0 <= i < |run'.steps|
      ensures HeldStep(run'.states[i], q, run'.steps[i])
    {
      if i < |run.steps| {
        assert run'.steps[i] == run.steps[i] && run.steps[i] in run.steps;
      } else {
        assert run'.states[i] == run'.states[..|run.states|][i];
      }
    }
  }

  lemma {:induction false} FinalizeThird(
    q: nat, conf: Protocol.Config, ms: set<Protocol.Msg>, run: Run, c: Chain) returns (run': Run)
    requires Protocol.LNotarized(conf, ms, B3) && conf.n > conf.f
    requires EndsIn(q, conf, ms, run, c) && NoFinalization(run) && OnlyThird(c) && c.current != 3
    ensures EndsIn(q, conf, ms, run', Finalize(c, q, 3).0)
    ensures HeldFor(c, q, 3) ==> HeldRun(q, run')
  {
    ThirdRemains(q, run, c);
    OnlyThirdSent(Finalize(c, q, 3).0, conf, ms);
    run' := VotedNext(q, conf, ms, run, c, FinalizeAt(3), Finalize(c, q, 3).0);
    if HeldFor(c, q, 3) {
      HeldAtLast(q, run, c, 3, run');
    }
  }

  /** The first block written is a child of the block at which the walk ends. */
  lemma {:induction false} WritesFrom(c: Chain, q: nat)
    requires Structured(c) && c.current != 3 && c.ledger == [] && Finalize(c, q, 3).1.Finalized?
    ensures var ledger := Finalize(c, q, 3).0.ledger;
      Sweeps(c, q, 3) && ledger != [] && ledger[0].Block? && ledger[0].parent == Canonical(c, 3).bottom
  {
    Additions(c, q, 3);
    WrittenBlocksAreLinked(c, q, 3);
  }

  lemma {:induction false} LatecomerWrites(q: nat, votes: set<PeerId>)
    requires |votes| >= q
    ensures var c := FourViews(Nulled(None), Genesis, votes);
      Finalize(c, q, 3).1.Finalized? && Canonical(c, 3).bottom == B1
  {
    var c := ThreeViews(None, votes);
    LedgerCanDetach(q, votes);
    assert FindParent(c.views, B2) == Some(2) && FindParent(c.views, B1) == None;
    assert Walk(c.views, B1) == Trace({}, B1, None);
    assert Walk(c.views, B2) == Trace({} + {2}, B1, None);
  }

  lemma {:induction false} RegularWrites(q: nat, votes: set<PeerId>)
    requires |votes| >= q
    requires Structured(FourViews(Notarized(Genesis, B1, {}), B1, votes))
    ensures var c := FourViews(Notarized(Genesis, B1, {}), B1, votes);
      Finalize(c, q, 3).1.Finalized? && Canonical(c, 3).bottom == Genesis && Anchored(c, q, 3)
  {
    var c := FourViews(Notarized(Genesis, B1, {}), B1, votes);
    assert FindParent(c.views, B2) == Some(2) && FindParent(c.views, B1) == Some(1);
    assert Walk(c.views, Genesis) == Trace({}, Genesis, None);
    assert Walk(c.views, B1) == Trace({} + {1}, Genesis, None);
    assert Walk(c.views, B2) == Trace({} + {1} + {2}, Genesis, None);
    AllOrNothing(c, q, 3);
  }

  lemma {:induction false} Peers(k: nat) returns (s: set<PeerId>)
    ensures |s| == k && forall p :: p in s ==> p < k
  {
    s := {};
    if k > 0 {
      var rest := Peers(k - 1);
      s := rest + {k - 1};
    }
  }

  lemma {:induction false} Setting(n: nat, f: nat) returns (conf: Protocol.Config, ms: set<Protocol.Msg>)
    requires n >= 3 * f + 2
    ensures conf.n == n && conf.f == f && Sent(conf, ms) && Protocol.LNotarized(conf, ms, B3)
  {
    conf := Thresholds.LastAre(n, f);
    ms := Votes(conf, FiniteSets.Range(0, f + 1));
    assert ForcedNullifications.Opens(conf, FiniteSets.Range(0, f + 1));
    VotesAreSent(conf, FiniteSets.Range(0, f + 1));
  }

  lemma {:induction false} DifferentStarts(s: seq<Block>, t: seq<Block>)
    requires s != [] && t != [] && s[0] != t[0]
    ensures !(s <= t) && !(t <= s)
  {
  }

  /** The ledgers of the last states disagree from the first block on. */
  ghost predicate Disagree(run: Run, run': Run)
    requires |run.steps| < |run.states| && |run'.steps| < |run'.states|
  {
    var ledger, ledger' := run.states[|run.steps|].ledger, run'.states[|run'.steps|].ledger;
    !(ledger <= ledger') && !(ledger' <= ledger)
  }

  lemma {:induction false} LatecomerRun(q: nat, conf: Protocol.Config, ms: set<Protocol.Msg>, votes: set<PeerId>)
    returns (run: Run)
    requires Protocol.LNotarized(conf, ms, B3) && conf.n > conf.f && |votes| >= q
    ensures VotedRun(q, run, conf, ms)
    ensures var ledger := run.states[|run.steps|].ledger; ledger != [] && ledger[0].Block? && ledger[0].parent == B1
  {
    var c := FourViews(Nulled(None), Genesis, votes);
    var run0 := Latecomer(q, conf, ms, votes);
    EveryRunIsStructured(q, run0, |run0.steps|);
    LatecomerWrites(q, votes);
    WritesFrom(c, q);
    run := FinalizeThird(q, conf, ms, run0, c);
  }

  lemma {:induction false} RegularRun(q: nat, conf: Protocol.Config, ms: set<Protocol.Msg>, votes: set<PeerId>)
    returns (run: Run)
    requires Protocol.LNotarized(conf, ms, B3) && conf.n > conf.f && |votes| >= q
    ensures VotedRun(q, run, conf, ms) && HeldRun(q, run)
    ensures var ledger := run.states[|run.steps|].ledger;
      ledger != [] && ledger[0].Block? && ledger[0].parent == Genesis
  {
    var c := FourViews(Notarized(Genesis, B1, {}), B1, votes);
    var run0 := Regular(q, conf, ms, votes);
    EveryRunIsStructured(q, run0, |run0.steps|);
    RegularWrites(q, votes);
    WritesFrom(c, q);
    AnchoredExactly(c, q, 3);
    run := FinalizeThird(q, conf, ms, run0, c);
  }

  /** For every N >= 3F+2 there are messages that follow the documented rules, and two
      replicas with votes among them whose ledgers disagree from the first block on. One
      holds the ancestors of what it finalizes, the other does not. */
  lemma {:induction false} LedgersCanDisagree(n: nat, f: nat)
    returns (conf: Protocol.Config, ms: set<Protocol.Msg>, run: Run, run': Run)
    requires n >= 3 * f + 2
    ensures conf.n == n && conf.f == f && Supported(n - f, run, conf, ms) && Supported(n - f, run', conf, ms)
    ensures HeldRun(n - f, run') && Disagree(run, run')
  {
    conf, ms := Setting(n, f);
    var votes := Peers(n - f);
    run := LatecomerRun(n - f, conf, ms, votes);
    run' := RegularRun(n - f, conf, ms, votes);
    DifferentStarts(run.states[|run.steps|].ledger, run'.states[|run'.steps|].ledger);
  }
}
