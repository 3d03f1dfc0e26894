/** Runs in which finalization misses a property that holds under the conditions proved
    in `Finalization` and `StateDiffs`. */
module Limits {
  import opened Wrappers
  import opened Blocks
  import opened ChainState
  import opened Finalization
  import opened ChainRuns
  import opened StateDiffs

  const B1 := Block(1, Genesis, 0)
  const B2 := Block(2, B1, 0)
  const B3 := Block(3, B2, 0)
  const ROOT3 := Block(3, Genesis, 0)
  const ROOT4 := Block(4, Genesis, 0)

  /** The state of a view on `parent` with block `b`, an M-notarization of it and votes. */
  function Notarized(parent: Hash, b: Block, votes: set<PeerId>): Ctx {
    NewCtx(parent).(block := Some(b), blockHash := Some(b), votes := votes, mNot := Some(b))
  }

  /** The current view gets state `ctx`, and the replica enters the next view on its
      notarized block. */
  function Advance(c: Chain, ctx: Ctx): Chain
    requires ctx.mNot.Some?
  {
    Enter(OnMNotarization(c.(views := c.views[c.current := ctx]), c.current), ctx.mNot.value)
  }

  lemma {:induction false} ReachesAdvance(q: nat, c: Chain, ctx: Ctx)
    requires Reachable(q, c) && c.current in c.views && CtxStep(c.current, c.views[c.current], ctx) && ctx.mNot.Some?
    ensures Reachable(q, Advance(c, ctx))
  {
    var c1 := c.(views := c.views[c.current := ctx]);
    ReachesNext(q, c, Update(c.current, ctx), c1);
    ReachesNext(q, c1, ProgressMNotarized(ctx.mNot.value), Advance(c, ctx));
  }

  // ---- Three views ----

  /** View 1 was left by its nullification, with or without its block; views 2 and 3 are
      notarized, and view 3 has the given votes. */
  function Nulled(block1: Option<Block>): Ctx {
    NewCtx(Genesis).(block := block1, blockHash := block1, nullification := true)
  }

  function ThreeViews(block1: Option<Block>, votes: set<PeerId>): Chain {
    Chain(4, map[1 := Nulled(block1), 2 := Notarized(Genesis, B2, {}), 3 := Notarized(B2, B3, votes), 4 := NewCtx(B3)],
          Genesis, [], map[], 0, [], [], {})
  }

  lemma {:induction false} ReachesSecondView(q: nat, block1: Option<Block>)
    requires block1.None? || block1 == Some(B1)
    ensures Reachable(q, Chain(2, map[1 := Nulled(block1), 2 := NewCtx(Genesis)], Genesis, [], map[], 0, [], [], {}))
  {
    var c1 := Init().(views := map[1 := Nulled(block1)]);
    ReachesInit(q);
    ReachesNext(q, Init(), Update(1, Nulled(block1)), c1);
    assert IsSelectedParent(c1, 2, Genesis);
    ReachesNext(q, c1, ProgressNullified(Genesis), Enter(c1, Genesis));
  }

  lemma {:induction false} ReachesThreeViews(q: nat, block1: Option<Block>, votes: set<PeerId>)
    requires block1.None? || block1 == Some(B1)
    ensures Reachable(q, ThreeViews(block1, votes))
  {
    var c1 := Chain(2, map[1 := Nulled(block1), 2 := NewCtx(Genesis)], Genesis, [], map[], 0, [], [], {});
    var c2 := Advance(c1, Notarized(Genesis, B2, {}));
    ReachesSecondView(q, block1);
    ReachesAdvance(q, c1, Notarized(Genesis, B2, {}));
    ReachesAdvance(q, c2, Notarized(B2, B3, votes));
    assert Advance(c2, Notarized(B2, B3, votes)) == ThreeViews(block1, votes);
  }

  lemma {:induction false} ReachableIsStructured(q: nat, c: Chain)
    requires Reachable(q, c)
    ensures Structured(c)
  {
    var run :| IsRun(q, run) && run.states[|run.steps|] == c;
    EveryRunIsStructured(q, run, |run.steps|);
  }

  /** View 3 builds on view 2, and view 2 on a block this replica never got: only the
      direct parent is compared with the tip, so the ledger starts in mid-air. */
  lemma {:induction false} LedgerCanDetach(q: nat, votes: set<PeerId>)
    requires |votes| >= q
    ensures var c := ThreeViews(None, votes);
      && Reachable(q, c) && IsPath(Genesis, c.ledger, c.tip)
      && Finalize(c, q, 3).1.Finalized?
      && !IsPath(Genesis, Finalize(c, q, 3).0.ledger, Finalize(c, q, 3).0.tip)
  {
    var c := ThreeViews(None, votes);
    ReachesThreeViews(q, None, votes);
    ReachableIsStructured(q, c);
    assert FindParent(c.views, B2) == Some(2) && FindParent(c.views, B1) == None;
    assert Walk(c.views, B1) == Trace({}, B1, None);
    assert Walk(c.views, B2) == Trace({} + {2}, B1, None);
    AllOrNothing(c, q, 3);
    LedgerStaysOneChain(c, q, 3);
  }

  /** View 1 was nullified before it was notarized here, yet view 3 descends from it:
      the sweep stops at view 1, with view 1 gone and view 3 not finalized. */
  lemma {:induction false} SweepCanStop(q: nat, votes: set<PeerId>)
    requires |votes| >= q
    ensures var c := ThreeViews(Some(B1), votes);
      && Reachable(q, c) && Finalize(c, q, 3).1.Failed?
      && !Untouched(c, Finalize(c, q, 3).0) && 3 in Finalize(c, q, 3).0.views
  {
    var c := ThreeViews(Some(B1), votes);
    ReachesThreeViews(q, Some(B1), votes);
    ReachableIsStructured(q, c);
    assert FindParent(c.views, B2) == Some(2) && FindParent(c.views, B1) == Some(1);
    assert Walk(c.views, Genesis) == Trace({}, Genesis, None);
    assert Walk(c.views, B1) == Trace({} + {1}, Genesis, None);
    assert Walk(c.views, B2) == Trace({} + {1} + {2}, Genesis, None);
    assert 1 in CanonicalViews(c, 3);
    AllOrNothing(c, q, 3);
    SweepIsReady(c, q, 3);
    SweepStops(c.(recovery := []), q, CanonicalViews(c, 3), 3, 0);
  }

  // ---- A parked proposal ----

  /** View 1 is notarized, and nullified afterwards; view 2 has a block on it. */
  function Overtaken(): Chain {
    Chain(2, map[1 := Notarized(Genesis, B1, {}).(nullification := true),
                 2 := NewCtx(B1).(block := Some(B2), blockHash := Some(B2))],
          Genesis, [], map[], 0, [], [], {})
  }

  lemma {:induction false} ReachesOvertaken(q: nat)
    ensures Reachable(q, Overtaken())
  {
    var c1 := Advance(Init(), Notarized(Genesis, B1, {}));
    var ctx1, ctx2 := Overtaken().views[1], Overtaken().views[2];
    ReachesInit(q);
    ReachesAdvance(q, Init(), Notarized(Genesis, B1, {}));
    ReachesNext(q, c1, Update(2, ctx2), c1.(views := c1.views[2 := ctx2]));
    ReachesNext(q, c1.(views := c1.views[2 := ctx2]), Update(1, ctx1), Overtaken());
  }

  /** The cascade leaves view 2 for a view on genesis. */
  function Behind(): map<nat, Ctx> {
    Overtaken().views[2 := Overtaken().views[2].(hasNullified := true)]
  }

  function ThirdView(ctx: Ctx): Chain {
    Chain(3, Behind()[3 := ctx], Genesis, [], map[], 0, [], [], {})
  }

  lemma {:induction false} ReachesThirdView(q: nat)
    ensures Reachable(q, ThirdView(NewCtx(Genesis)))
  {
    var c := Overtaken();
    ReachesOvertaken(q);
    assert CascadedFrom(c, 1) == c.(views := Behind());
    assert IsSelectedParent(CascadedFrom(c, 1), 3, Genesis);
    ReachesNext(q, c, ProgressCascade(1, Genesis), ThirdView(NewCtx(Genesis)));
  }

  /** In view 3, a proposal on the unnotarized block of view 2 is parked with its diff. */
  function Waiting(changes: nat): Ctx {
    NewCtx(Genesis).(pendingBlock := Some(B3), stateDiff := Some(Diff(B3, changes)))
  }

  lemma {:induction false} ReachesParked(q: nat, changes: nat)
    ensures Reachable(q, ThirdView(Waiting(changes)))
    ensures AddProposal(ThirdView(NewCtx(Genesis)), 3, B3, changes, {}, true) == ThirdView(Waiting(changes))
  {
    var c := ThirdView(NewCtx(Genesis));
    ReachesThirdView(q);
    assert FindParent(c.views, B2) == Some(2) && CheckProposal(c, 3, B3) == AwaitParent;
    ReachesNext(q, c, Update(3, Waiting(changes)), ThirdView(Waiting(changes)));
  }

  /** The parked block is notarized, and its diff published. */
  function Published(changes: nat, votes: set<PeerId>): Chain {
    Chain(5, Behind()[3 := Waiting(changes).(blockHash := Some(B3), mNot := Some(B3))]
                     [4 := Notarized(B3, ROOT4, votes)][5 := NewCtx(ROOT4)],
          Genesis, [], map[3 := Diff(B3, changes)], 0, [], [], {})
  }

  /** View 4 is built on genesis. */
  lemma {:induction false} ReachesKeptView(q: nat, changes: nat, votes: set<PeerId>)
    ensures Reachable(q, Published(changes, votes))
  {
    var c := ThirdView(Waiting(changes));
    var ctx := Waiting(changes).(blockHash := Some(B3), mNot := Some(B3));
    var c1 := Advance(c, ctx);
    ReachesParked(q, changes);
    ReachesAdvance(q, c, ctx);
    ReachesAdvance(q, c1, Notarized(B3, ROOT4, votes));
    assert Advance(c1, Notarized(B3, ROOT4, votes)) == Published(changes, votes);
  }

  /** View 3 is off the chain of view 4 and kept because its block is missing, but its
      diff was published: finalizing view 4 applies it. */
  lemma {:induction false} KeptDiffIsApplied(q: nat, changes: nat, votes: set<PeerId>)
    requires |votes| >= q
    ensures var c := Published(changes, votes);
      && Reachable(q, c) && Finalize(c, q, 4).1.Finalized?
      && exists u :: Applies(Finalize(c, q, 4).0.applied, u) && u !in CanonicalViews(c, 4)
  {
    var c := Published(changes, votes);
    ReachesKeptView(q, changes, votes);
    ReachableIsStructured(q, c);
    assert Walk(c.views, Genesis) == Trace({}, Genesis, None);
    AllOrNothing(c, q, 4);
    assert Kept(c.views, CanonicalViews(c, 4), 3);
    OnlyCanonicalDiffsApplied(c, q, 4);
    assert Finalize(c, q, 4).0.applied[|c.applied|..] == Finalize(c, q, 4).0.applied;
  }

  /** Another block of view 3 is notarized, and recovered. */
  function Recovered(changes: nat, votes: set<PeerId>): Chain {
    Chain(4, Behind()[3 := Found(changes, votes).(block := Some(ROOT3))][4 := NewCtx(ROOT3)],
          Genesis, [], map[3 := Diff(B3, changes)], 0, [], [], {})
  }

  function Found(changes: nat, votes: set<PeerId>): Ctx {
    Waiting(changes).(blockHash := Some(ROOT3), mNot := Some(ROOT3), votes := votes)
  }

  lemma {:induction false} ReachesRecovered(q: nat, changes: nat, votes: set<PeerId>)
    ensures Reachable(q, Recovered(changes, votes))
  {
    var c, ctx := ThirdView(Waiting(changes)), Found(changes, votes);
    var c1 := ThirdView(ctx);
    ReachesParked(q, changes);
    ReachesNext(q, c, Update(3, ctx), c1);
    assert AddRecovered(c1, 3, ROOT3) == c1.(views := c1.views[3 := ctx.(block := Some(ROOT3))]);
    ReachesAdvance(q, c1, ctx.(block := Some(ROOT3)));
    assert Advance(c1, ctx.(block := Some(ROOT3))) == Recovered(changes, votes);
  }

  /** The diff of the parked proposal is published for the recovered block: finalizing
      that block applies the state changes of the other one. */
  lemma {:induction false} ForeignDiffIsApplied(q: nat, changes: nat, votes: set<PeerId>)
    requires |votes| >= q
    ensures var c := Recovered(changes, votes);
      && Reachable(q, c) && AppliedOnLedger(c) && Anchored(c, q, 3) && Finalize(c, q, 3).1.Finalized?
      && !AppliedOnLedger(Finalize(c, q, 3).0)
  {
    var c := Recovered(changes, votes);
    ReachesRecovered(q, changes, votes);
    ReachableIsStructured(q, c);
    assert Walk(c.views, Genesis) == Trace({}, Genesis, None);
    AllOrNothing(c, q, 3);
    assert Settled(c);
    assert Flushes(c, 3, 3);
    FinalizeKeepsApplied(c, q, 3);
  }
}
