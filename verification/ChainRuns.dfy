/** Runs of one replica's chain: what every run keeps. */
module ChainRuns {
  import opened Wrappers
  import opened Blocks
  import opened ChainState
  import opened Finalization

  // ---- Steps ----

  /** How messages change a view's state: votes, certificates, blocks and nullifications
      are only ever added, and the hash is fixed once a block or a notarization is there.
      `CtxOk` of the result is the hypothesis that hashes identify blocks. */
  ghost predicate CtxStep(v: nat, ctx: Ctx, ctx': Ctx) {
    && CtxOk(v, ctx')
    && ctx'.parentHash == ctx.parentHash && ctx.votes <= ctx'.votes
    && (ctx.block.Some? ==> ctx'.block == ctx.block)
    && (ctx.mNot.Some? ==> ctx'.mNot == ctx.mNot)
    && (ctx.nullification ==> ctx'.nullification)
    && (ctx.hasNullified ==> ctx'.hasNullified)
  }

  /** Marking a view as nullified by this replica also drops its pending diff. */
  function MarkNullified(c: Chain, v: nat): Chain {
    if v in c.views
    then RemoveDiffs(c.(views := c.views[v := c.views[v].(hasNullified := true)]), v, v)
    else c
  }

  /** A cascade starts from an earlier view that is M-notarized and nullified. */
  predicate Triggers(c: Chain, start: nat) {
    start < c.current && start in c.views && c.views[start].mNot.Some? && c.views[start].nullification
  }

  /** The current view nullified by this replica, unless it already was. */
  function Cascaded(c: Chain): Chain {
    if c.current in c.views && !c.views[c.current].hasNullified then MarkNullified(c, c.current) else c
  }

  /** The pending diffs from `start` on are dropped, too. */
  function CascadedFrom(c: Chain, start: nat): Chain {
    RemoveDiffs(Cascaded(c), start, c.current)
  }

  /** The parent of the next view belongs to a well-formed chain of views up to the current
      one. */
  predicate Enterable(c: Chain, parent: Hash) {
    WellFormed(parent) && View(parent) <= c.current
  }

  datatype Step =
    | Update(v: nat, ctx: Ctx)
    | Publish(v: nat)
    | Rollback(lo: nat, hi: nat)
    | ProgressMNotarized(parent: Hash)
    | ProgressNullified(parent: Hash)
    | ProgressCascade(start: nat, parent: Hash)
    | FinalizeAt(v: nat)

  ghost predicate Next(c: Chain, q: nat, step: Step, c': Chain) {
    match step
    case Update(v, ctx) =>
      v in c.views && CtxStep(v, c.views[v], ctx) && c' == c.(views := c.views[v := ctx])
    case Publish(v) => c' == OnMNotarization(c, v)
    case Rollback(lo, hi) => c' == RemoveDiffs(c, lo, hi)
    case ProgressMNotarized(parent) =>
      // on the notarized hash of the current view
      && c.current in c.views && c.views[c.current].mNot == Some(parent)
      && c' == Enter(OnMNotarization(c, c.current), parent)
    case ProgressNullified(parent) =>
      && c.current in c.views && c.views[c.current].nullification
      && IsSelectedParent(c, c.current + 1, parent) && c' == Enter(c, parent)
    case ProgressCascade(start, parent) =>
      && c.current in c.views && Triggers(c, start)
      && IsSelectedParent(CascadedFrom(c, start), c.current + 1, parent) && c' == Enter(CascadedFrom(c, start), parent)
    case FinalizeAt(v) =>
      // the state machine never finalizes the current view
      v != c.current && c' == Finalize(c, q, v).0
  }

  function Init(): Chain {
    Chain(1, map[1 := NewCtx(Genesis)], Genesis, [], map[], 0, [], [], {})
  }

  datatype Run = Run(states: seq<Chain>, steps: seq<Step>)

  ghost predicate IsRun(q: nat, run: Run) {
    && |run.states| == |run.steps| + 1
    && run.states[0] == Init()
    && forall i :: 0 <= i < |run.steps| ==> Next(run.states[i], q, run.steps[i], run.states[i + 1])
  }

  /** Some run ends in `c`. */
  ghost predicate Reachable(q: nat, c: Chain) {
    exists run :: IsRun(q, run) && run.states[|run.steps|] == c
  }

  lemma {:induction false} ReachesInit(q: nat)
    ensures Reachable(q, Init())
  {
    assert IsRun(q, Run([Init()], []));
  }

  lemma {:induction false} ReachesNext(q: nat, c: Chain, step: Step, c': Chain)
    requires Reachable(q, c) && Next(c, q, step, c')
    ensures Reachable(q, c')
  {
    var run :| IsRun(q, run) && run.states[|run.steps|] == c;
    var run' := Run(run.states + [c'], run.steps + [step]);
    forall i | 0 <= i < |run'.steps|
      ensures Next(run'.states[i], q, run'.steps[i], run'.states[i + 1])
    {
      if i < |run.steps| {
        assert Next(run.states[i], q, run.steps[i], run.states[i + 1]);
      }
    }
    assert IsRun(q, run') && run'.states[|run'.steps|] == c';
  }

  // ---- What every run keeps ----

  /** The committed block's view has left the map for good. */
  ghost predicate TipGone(c: Chain) {
    WellFormed(c.tip) && View(c.tip) !in c.views && View(c.tip) < c.current
  }

  lemma {:induction false} SweepOneShrinks(c: Chain, q: nat, canonical: set<nat>, target: nat, k: nat)
    requires ViewsOk(c.views) && TipGone(c) && k <= target < c.current
    ensures var c1 := SweepOne(c, q, canonical, target, k).0;
      && c1.current == c.current && TipGone(c1)
      && (c1.views == c.views || c1.views == c.views - {k})
  {
    if k in c.views {
      assert CtxOk(k, c.views[k]);
    }
  }

  /** Any sweep, even one that stops early, only removes views up to its target. */
  lemma {:induction false} SweepShrinks(c: Chain, q: nat, canonical: set<nat>, target: nat, k: nat)
    requires ViewsOk(c.views) && TipGone(c) && target < c.current
    ensures var c1 := Sweep(c, q, canonical, target, k).0;
      && c1.current == c.current && TipGone(c1)
      && (forall u :: u in c1.views ==> u in c.views && c1.views[u] == c.views[u])
      && (forall u :: u in c.views && target < u ==> u in c1.views)
    decreases target + 1 - k
  {
    if k <= target {
      var (c1, ok) := SweepOne(c, q, canonical, target, k);
      SweepOneShrinks(c, q, canonical, target, k);
      if ok {
        SweepShrinks(c1, q, canonical, target, k + 1);
      }
    }
  }

  /** A completed sweep has removed its target, whichever view it is. */
  lemma {:induction false} SweepRemovesTarget(c: Chain, q: nat, canonical: set<nat>, target: nat, k: nat)
    requires k <= target
    ensures var (c1, ok) := Sweep(c, q, canonical, target, k); c1.current == c.current && (ok ==> target !in c1.views)
    decreases target - k
  {
    var (c1, ok) := SweepOne(c, q, canonical, target, k);
    if ok && k < target {
      SweepRemovesTarget(c1, q, canonical, target, k + 1);
    }
  }

  lemma {:induction false} FinalizedIsGone(c: Chain, q: nat, v: nat)
    ensures var (c1, outcome) := Finalize(c, q, v); c1.current == c.current && (outcome.Finalized? ==> v !in c1.views)
  {
    if Sweeps(c, q, v) {
      SweepRemovesTarget(c.(recovery := []), q, CanonicalViews(c, v), v, 0);
    }
  }

  lemma {:induction false} FinalizeShrinks(c: Chain, q: nat, v: nat)
    requires Structured(c) && TipGone(c) && v != c.current
    ensures var c1 := Finalize(c, q, v).0;
      && c1.current == c.current && TipGone(c1)
      && (forall u :: u in c1.views ==> u in c.views && c1.views[u] == c.views[u])
      && (forall u :: u in c.views && v < u ==> u in c1.views)
  {
    if Sweeps(c, q, v) {
      SweepShrinks(c.(recovery := []), q, CanonicalViews(c, v), v, 0);
    }
  }

  lemma {:induction false} FinalizeKeepsStructure(c: Chain, q: nat, v: nat)
    requires Structured(c) && TipGone(c) && v != c.current
    ensures Structured(Finalize(c, q, v).0) && TipGone(Finalize(c, q, v).0)
  {
    FinalizeShrinks(c, q, v);
    if Sweeps(c, q, v) {
      assert v < c.current;
    }
  }

  ghost predicate Good(c: Chain) {
    Structured(c) && TipGone(c)
  }

  lemma {:induction false} UpdateIsGood(c: Chain, v: nat, ctx: Ctx)
    requires Good(c) && v in c.views && CtxStep(v, c.views[v], ctx)
    ensures Good(c.(views := c.views[v := ctx]))
  {
  }

  lemma {:induction false} EnterIsGood(c: Chain, parent: Hash)
    requires Good(c) && Enterable(c, parent)
    requires c.views[c.current].mNot.Some? || IsNullified(c.views[c.current])
    ensures Good(Enter(c, parent))
  {
  }

  /** Pending diffs do not matter to the structure. */
  lemma {:induction false} DiffsDoNotMatter(c: Chain, c': Chain)
    requires Good(c) && c' == c.(pending := c'.pending)
    ensures Good(c')
  {
  }

  lemma {:induction false} StructuredPreserved(c: Chain, q: nat, step: Step, c': Chain)
    requires Good(c) && Next(c, q, step, c')
    ensures Good(c')
  {
    match step
    case Update(v, ctx) => UpdateIsGood(c, v, ctx);
    case Publish(v) => DiffsDoNotMatter(c, c');
    case Rollback(lo, hi) => DiffsDoNotMatter(c, c');
    case ProgressMNotarized(parent) =>
      ParentsAreEnterable(c, parent);
      DiffsDoNotMatter(c, OnMNotarization(c, c.current));
      EnterIsGood(OnMNotarization(c, c.current), parent);
    case ProgressNullified(parent) =>
      ParentsAreEnterable(c, parent);
      EnterIsGood(c, parent);
    case ProgressCascade(start, parent) =>
      CascadeIsGood(c, start);
      ParentsAreEnterable(CascadedFrom(c, start), parent);
      EnterIsGood(CascadedFrom(c, start), parent);
    case FinalizeAt(v) => FinalizeKeepsStructure(c, q, v);
  }

  /** In every state of every run the current view is in the map, no view is later,
      and every earlier view in the map is M-notarized or nullified. */
  lemma {:induction false} EveryRunIsStructured(q: nat, run: Run, i: nat)
    requires IsRun(q, run) && i < |run.states|
    ensures Structured(run.states[i]) && TipGone(run.states[i])
  {
    if i > 0 {
      EveryRunIsStructured(q, run, i - 1);
      StructuredPreserved(run.states[i - 1], q, run.steps[i - 1], run.states[i]);
    }
  }

  ghost predicate GoneOrNullified(c: Chain, v: nat) {
    v <= c.current && (v in c.views ==> IsNullified(c.views[v]))
  }

  lemma {:induction false} StepKeepsNullified(c: Chain, q: nat, step: Step, c': Chain, v: nat)
    requires Structured(c) && TipGone(c) && Next(c, q, step, c') && GoneOrNullified(c, v)
    ensures GoneOrNullified(c', v)
  {
    if step.FinalizeAt? {
      FinalizeShrinks(c, q, step.v);
    }
  }

  lemma {:induction false} StepOfRunKeepsNullified(q: nat, run: Run, v: nat, i: nat)
    requires IsRun(q, run) && i < |run.steps| && GoneOrNullified(run.states[i], v)
    ensures GoneOrNullified(run.states[i + 1], v)
  {
    EveryRunIsStructured(q, run, i);
    StepKeepsNullified(run.states[i], q, run.steps[i], run.states[i + 1], v);
  }

  lemma {:induction false} NullifiedForGood(q: nat, run: Run, v: nat, i: nat, j: nat)
    requires IsRun(q, run) && i <= j < |run.states| && GoneOrNullified(run.states[i], v)
    ensures GoneOrNullified(run.states[j], v)
    decreases j - i
  {
    if i < j {
      NullifiedForGood(q, run, v, i, j - 1);
      StepOfRunKeepsNullified(q, run, v, j - 1);
    }
  }

  /** Once this replica has nullified a view, no later step finalizes it as target. */
  lemma {:induction false} NullifiedNeverFinalized(q: nat, run: Run, v: nat, i: nat, j: nat)
    requires IsRun(q, run) && i <= j < |run.steps| && run.steps[j] == FinalizeAt(v)
    requires v in run.states[i].views && IsNullified(run.states[i].views[v])
    ensures Finalize(run.states[j], q, v).1.Rejected? && run.states[j + 1] == run.states[j]
  {
    EveryRunIsStructured(q, run, i);
    NullifiedForGood(q, run, v, i, j);
  }

  // ---- Parent selection and proposal checks ----

  /** In every reachable state a block for the empty current view, built on the
      selected parent, is accepted at once by the chain checks. */
  lemma {:induction false} SelectedParentIsAccepted(q: nat, run: Run, i: nat, h: Hash, body: nat)
    requires IsRun(q, run) && i < |run.states|
    requires var c := run.states[i];
      c.current in c.views ==> c.views[c.current].block.None? && c.views[c.current].pendingBlock.None?
    requires IsSelectedParent(run.states[i], run.states[i].current, h)
    ensures var c := run.states[i]; CheckProposal(c, c.current, Block(c.current, h, body)) == Accept
  {
    EveryRunIsStructured(q, run, i);
    var c := run.states[i];
    if exists v: nat :: Selectable(c.views, c.current, v) {
      var v: nat :| && Selectable(c.views, c.current, v) && h == c.views[v].mNot.value
               && forall w: nat :: Selectable(c.views, c.current, w) ==> w <= v;
      assert FindParent(c.views, h) == Some(v);
      forall w | w in c.views && v < w < c.current
        ensures IsNullified(c.views[w])
      {
        assert !Selectable(c.views, c.current, w);
      }
    }
  }

  // ---- The finalizable-view search and finalization ----

  /** A view the search accepts is never rejected: finalization removes it, waits for
      a block it names for recovery, or stops at an unnotarized ancestor. */
  lemma {:induction false} FinalizableIsNotRejected(c: Chain, q: nat, v: nat)
    requires Structured(c) && Finalizable(c, q, v)
    ensures var (c', outcome) := Finalize(c, q, v);
      && !outcome.Rejected?
      && (outcome.Deferred? ==> c'.recovery != [] && v in c'.views)
      && (outcome.Finalized? ==> v !in c'.views && c'.views.Keys < c.views.Keys)
      && (outcome.Failed? <==> Sweeps(c, q, v) && !AllNotarized(c.views, CanonicalViews(c, v), 0))
  {
    var h := c.views[v].block.value;
    assert WellFormed(h);
    assert CheckFinalize(c, q, v).Finalized?;
    AllOrNothing(c, q, v);
  }

  // ---- Settled chains ----

  /** What holds as long as every finalization is anchored at the committed tip: the
      ledger is one chain to the tip, views left behind are off that chain, and only
      later views, all still in the map, have pending diffs. */
  ghost predicate Settled(c: Chain) {
    && WellFormed(c.tip)
    && IsPath(Genesis, c.ledger, c.tip)
    && c.lastFinal == View(c.tip)
    && c.pending.Keys <= c.views.Keys
    && (forall u :: u in c.pending ==> c.lastFinal < u)
    && LeftBehind(c)
  }

  ghost predicate LeftBehind(c: Chain) {
    forall u :: u in c.views && u <= View(c.tip) ==>
      && c.views[u].mNot.Some? && c.views[u].blockHash.Some?
      && !Extends(c.tip, c.views[u].blockHash.value)
  }

  /** The walk of a finalization ends at the committed tip and crosses only
      M-notarized views. */
  ghost predicate Anchored(c: Chain, q: nat, v: nat) {
    Sweeps(c, q, v) ==>
      Canonical(c, v).bottom == c.tip && AllNotarized(c.views, CanonicalViews(c, v), 0)
  }

  /** On an anchored walk the views visited are exactly those in the map whose block
      is `h` or an ancestor of it. */
  lemma {:induction false} WalkIsAncestry(c: Chain, h: Hash, u: nat)
    requires Structured(c) && LeftBehind(c) && WellFormed(c.tip) && WellFormed(h)
    requires Walk(c.views, h).missing.None? && Walk(c.views, h).bottom == c.tip
    ensures u in Walk(c.views, h).members <==>
      u in c.views && c.views[u].blockHash.Some? && Extends(h, c.views[u].blockHash.value)
    decreases h
  {
    if h.Genesis? || FindParent(c.views, h).None? {
      if u in c.views && c.views[u].blockHash.Some? && Extends(h, c.views[u].blockHash.value) {
        ExtendsView(h, c.views[u].blockHash.value);
      }
    } else {
      WalkIsAncestry(c, h.parent, u);
    }
  }

  /** A view up to the target is written to the ledger exactly when its block is the
      target or one of its ancestors. */
  lemma {:induction false} FinalizedExactlyAncestors(c: Chain, q: nat, v: nat, u: nat)
    requires Structured(c) && Settled(c) && Sweeps(c, q, v) && Canonical(c, v).bottom == c.tip
    ensures u in CanonicalViews(c, v) <==>
      u in c.views && c.views[u].blockHash.Some? && Extends(c.views[v].block.value, c.views[u].blockHash.value)
  {
    SweepIsReady(c, q, v);
    var h := c.views[v].block.value;
    WalkIsAncestry(c, h.parent, u);
    if u in c.views && c.views[u].blockHash == Some(h) {
      assert u == v;
    }
  }

  lemma {:induction false} FinalizeKeepsSettled(c: Chain, q: nat, v: nat)
    requires Structured(c) && TipGone(c) && Settled(c) && v != c.current && Anchored(c, q, v)
    ensures Settled(Finalize(c, q, v).0)
  {
    AllOrNothing(c, q, v);
    if Sweeps(c, q, v) {
      var c' := Finalize(c, q, v).0;
      SweepIsReady(c, q, v);
      LedgerStaysOneChain(c, q, v);
      SweepDiffs(c.(recovery := []), q, CanonicalViews(c, v), v, 0);
      TipAdvances(c, q, v);
      forall u | u in c'.views && u <= v
        ensures && c'.views[u].mNot.Some? && c'.views[u].blockHash.Some?
                && !Extends(c'.tip, c'.views[u].blockHash.value)
      {
        FinalizedExactlyAncestors(c, q, v, u);
      }
    }
  }

  /** The target of an anchored finalization extends the committed tip. */
  lemma {:induction false} TipAdvances(c: Chain, q: nat, v: nat)
    requires Structured(c) && Settled(c) && Sweeps(c, q, v) && Canonical(c, v).bottom == c.tip
    ensures Extends(c.views[v].block.value, c.tip) && View(c.tip) < v
  {
    WrittenBlocksAreLinked(c, q, v);
    SweepIsReady(c, q, v);
    PathAscends(c.tip, LedgerBlocks(c.views, CanonicalViews(c, v), 0, v), c.views[v].block.value);
  }

  lemma {:induction false} UpdateKeepsSettled(c: Chain, v: nat, ctx: Ctx)
    requires Good(c) && Settled(c) && v in c.views && CtxStep(v, c.views[v], ctx)
    ensures Settled(c.(views := c.views[v := ctx]))
  {
  }

  lemma {:induction false} EnterKeepsSettled(c: Chain, parent: Hash)
    requires Good(c) && Settled(c)
    ensures Settled(Enter(c, parent))
  {
  }

  /** Diffs may be dropped, and those of later views in the map added. */
  lemma {:induction false} DiffsKeepSettled(c: Chain, c': Chain)
    requires Settled(c) && c' == c.(pending := c'.pending)
    requires forall u :: u in c'.pending && u !in c.pending ==> u in c.views && c.lastFinal < u
    ensures Settled(c')
  {
  }

  lemma {:induction false} SettledPreserved(c: Chain, q: nat, step: Step, c': Chain)
    requires Good(c) && Settled(c) && Next(c, q, step, c')
    requires step.FinalizeAt? ==> Anchored(c, q, step.v)
    ensures Settled(c')
  {
    match step
    case Update(v, ctx) => UpdateKeepsSettled(c, v, ctx);
    case Publish(v) => DiffsKeepSettled(c, c');
    case Rollback(lo, hi) => DiffsKeepSettled(c, c');
    case ProgressMNotarized(parent) =>
      DiffsDoNotMatter(c, OnMNotarization(c, c.current));
      DiffsKeepSettled(c, OnMNotarization(c, c.current));
      EnterKeepsSettled(OnMNotarization(c, c.current), parent);
    case ProgressNullified(parent) => EnterKeepsSettled(c, parent);
    case ProgressCascade(start, parent) =>
      CascadeIsGood(c, start);
      EnterKeepsSettled(CascadedFrom(c, start), parent);
    case FinalizeAt(v) => FinalizeKeepsSettled(c, q, v);
  }

  ghost predicate AnchoredRun(q: nat, run: Run) {
    && IsRun(q, run)
    && forall i :: 0 <= i < |run.steps| && run.steps[i].FinalizeAt? ==> Anchored(run.states[i], q, run.steps[i].v)
  }

  /** Over every run whose finalizations are anchored, the ledger is one chain of
      blocks with strictly increasing views from genesis to the tip. */
  lemma {:induction false} AnchoredRunsSettle(q: nat, run: Run, i: nat)
    requires AnchoredRun(q, run) && i < |run.states|
    ensures Settled(run.states[i])
    ensures forall j, k | 0 <= j < k < |run.states[i].ledger| ::
      View(run.states[i].ledger[j]) < View(run.states[i].ledger[k])
  {
    if i > 0 {
      AnchoredRunsSettle(q, run, i - 1);
      EveryRunIsStructured(q, run, i - 1);
      SettledPreserved(run.states[i - 1], q, run.steps[i - 1], run.states[i]);
    }
    PathAscends(Genesis, run.states[i].ledger, run.states[i].tip);
  }

  // ---- The operations of the chain are made of steps ----

  lemma {:induction false} PublishIsGood(c: Chain, v: nat)
    requires Good(c)
    ensures Good(OnMNotarization(c, v)) && (Settled(c) ==> Settled(OnMNotarization(c, v)))
  {
    DiffsDoNotMatter(c, OnMNotarization(c, v));
    if Settled(c) {
      DiffsKeepSettled(c, OnMNotarization(c, v));
    }
  }

  /** Entering the next view keeps the invariants. */
  lemma {:induction false} ProgressIsGood(c: Chain, parent: Hash)
    requires Good(c) && Enterable(c, parent)
    requires c.views[c.current].mNot.Some? || IsNullified(c.views[c.current])
    ensures Good(Enter(c, parent)) && (Settled(c) ==> Settled(Enter(c, parent)))
    ensures var c' := Enter(OnMNotarization(c, c.current), parent); Good(c') && (Settled(c) ==> Settled(c'))
  {
    PublishIsGood(c, c.current);
    EnterIsGood(c, parent);
    EnterIsGood(OnMNotarization(c, c.current), parent);
    if Settled(c) {
      EnterKeepsSettled(c, parent);
      EnterKeepsSettled(OnMNotarization(c, c.current), parent);
    }
  }

  lemma {:induction false} ChangeIsGood(c: Chain, v: nat, ctx: Ctx)
    requires Good(c) && v in c.views && CtxStep(v, c.views[v], ctx)
    ensures var c' := c.(views := c.views[v := ctx]); Good(c') && (Settled(c) ==> Settled(c'))
  {
    UpdateIsGood(c, v, ctx);
    if Settled(c) {
      UpdateKeepsSettled(c, v, ctx);
    }
  }

  lemma {:induction false} AddProposalIsGood(
    c: Chain, v: nat, block: Block, changes: nat, joined: set<PeerId>, authentic: bool)
    requires Good(c)
    ensures var c' := AddProposal(c, v, block, changes, joined, authentic); Good(c') && (Settled(c) ==> Settled(c'))
  {
    if CheckProposal(c, v, block).AwaitParent? {
      ChangeIsGood(c, v, c.views[v].(pendingBlock := Some(block), stateDiff := Some(Diff(block, changes))));
    } else if CheckProposal(c, v, block).Accept? {
      var ctx := TakeBlock(c.views[v], v, block, changes, joined, authentic);
      ChangeIsGood(c, v, ctx);
      PublishIsGood(c.(views := c.views[v := ctx]), v);
    }
  }

  lemma {:induction false} StoreDiffIsGood(c: Chain, v: nat, d: Diff)
    requires Good(c)
    ensures Good(StoreDiff(c, v, d)) && (Settled(c) ==> Settled(StoreDiff(c, v, d)))
  {
    if v in c.views {
      ChangeIsGood(c, v, c.views[v].(stateDiff := Some(d)));
    }
  }

  lemma {:induction false} AddRecoveredIsGood(c: Chain, v: nat, block: Block)
    requires Good(c)
    ensures Good(AddRecovered(c, v, block)) && (Settled(c) ==> Settled(AddRecovered(c, v, block)))
  {
    if AddRecovered(c, v, block) != c {
      ChangeIsGood(c, v, c.views[v].(block := Some(block)));
    }
  }

  lemma {:induction false} FinalizeIsGood(c: Chain, q: nat, v: nat)
    requires Good(c) && v != c.current
    ensures Good(Finalize(c, q, v).0)
    ensures Settled(c) && Anchored(c, q, v) ==> Settled(Finalize(c, q, v).0)
  {
    StructuredPreserved(c, q, FinalizeAt(v), Finalize(c, q, v).0);
    if Settled(c) && Anchored(c, q, v) {
      FinalizeKeepsSettled(c, q, v);
    }
  }

  lemma {:induction false} MarkNullifiedIsGood(c: Chain, v: nat)
    requires Good(c)
    ensures Good(MarkNullified(c, v)) && (Settled(c) ==> Settled(MarkNullified(c, v)))
  {
    if v in c.views {
      ChangeIsGood(c, v, c.views[v].(hasNullified := true));
    }
  }

  /** What a cascade does before it enters the next view. */
  lemma {:induction false} CascadeIsGood(c: Chain, start: nat)
    requires Good(c)
    ensures var c' := CascadedFrom(c, start);
      && Good(c') && (Settled(c) ==> Settled(c'))
      && c'.current == c.current && c.current in c'.views && IsNullified(c'.views[c.current])
  {
    MarkNullifiedIsGood(c, c.current);
    DiffsDoNotMatter(Cascaded(c), CascadedFrom(c, start));
    if Settled(c) {
      DiffsKeepSettled(Cascaded(c), CascadedFrom(c, start));
    }
  }

  lemma {:induction false} CascadeIsStep(c: Chain, q: nat, start: nat, parent: Hash)
    requires c.current in c.views && Triggers(c, start)
    requires IsSelectedParent(CascadedFrom(c, start), c.current + 1, parent)
    ensures Next(c, q, ProgressCascade(start, parent), Enter(CascadedFrom(c, start), parent))
  {
  }

  /** The selected parent and the notarized hash of the current view can be entered on. */
  lemma {:induction false} ParentsAreEnterable(c: Chain, h: Hash)
    requires Good(c)
    requires IsSelectedParent(c, c.current + 1, h) || c.views[c.current].mNot == Some(h)
    ensures Enterable(c, h)
  {
    forall v | v in c.views && c.views[v].mNot == Some(h)
      ensures Enterable(c, h)
    {
      assert CtxOk(v, c.views[v]);
    }
  }
}
