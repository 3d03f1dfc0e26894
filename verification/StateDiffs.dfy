/** Over whole runs: when the state committed to storage is that of the ledger. */
module StateDiffs {
  import opened Wrappers
  import opened Blocks
  import opened ChainState
  import opened Finalization
  import opened ChainRuns

  /** A diff stored for a view is that of a finalized block of the view. */
  ghost predicate OnLedger(ledger: seq<Block>, e: (nat, Diff)) {
    e.1.block in ledger && View(e.1.block) == e.0
  }

  ghost predicate AppliedOnLedger(c: Chain) {
    forall e :: e in c.applied ==> OnLedger(c.ledger, e)
  }

  // ---- One finalization ----

  /** Finalizing `v` applies the pending diff of view `u`. */
  predicate Flushes(c: Chain, v: nat, u: nat)
    requires v in c.views && c.views[v].block.Some? && c.views[v].block.value.Block?
  {
    u in c.pending && u <= v && !Dropped(c.views, CanonicalViews(c, v), u)
  }

  /** Every diff that finalizing `v` applies was computed from the block it finalizes in
      that view. */
  ghost predicate Matching(c: Chain, v: nat)
    requires v in c.views && c.views[v].block.Some? && c.views[v].block.value.Block?
  {
    forall u :: Flushes(c, v, u) ==>
      u in CanonicalViews(c, v) && u in c.views && c.views[u].block == Some(c.pending[u].block)
  }

  lemma {:induction false} AscendingMember(p: map<nat, Diff>, lo: nat, hi: nat, e: (nat, Diff))
    ensures e in Ascending(p, lo, hi) <==> lo <= e.0 <= hi && e.0 in p && e.1 == p[e.0]
    decreases hi + 1 - lo
  {
    if lo <= hi {
      AscendingMember(p, lo + 1, hi, e);
    }
  }

  lemma {:induction false} LedgerBlocksMember(views: Views, members: set<nat>, k: nat, v: nat, b: Block)
    requires ViewsOk(views)
    ensures b in LedgerBlocks(views, members, k, v) <==>
      k <= View(b) <= v && View(b) in members && View(b) in views && views[View(b)].block == Some(b)
    decreases v + 1 - k
  {
    if k <= v {
      LedgerBlocksMember(views, members, k + 1, v, b);
      if k in views {
        assert CtxOk(k, views[k]);
      }
    }
  }

  /** What a completed finalization adds to the applied diffs and to the ledger. */
  lemma {:induction false} Additions(c: Chain, q: nat, v: nat)
    requires Structured(c) && v != c.current && Finalize(c, q, v).1.Finalized?
    ensures Sweeps(c, q, v)
    ensures var c', canonical := Finalize(c, q, v).0, CanonicalViews(c, v);
      && c'.ledger == c.ledger + LedgerBlocks(c.views, canonical, 0, v)
      && c'.applied == c.applied + Ascending(Surviving(c, canonical, v, 0), 0, v)
      && c'.pending == After(c.pending, v)
  {
    AllOrNothing(c, q, v);
    SweepIsReady(c, q, v);
    SweepDiffs(c.(recovery := []), q, CanonicalViews(c, v), v, 0);
  }

  /** The diff of a flushed view is on the ledger exactly if it was computed from the
      view's finalized block. */
  lemma {:induction false} FlushedOnLedger(c: Chain, q: nat, v: nat, u: nat)
    requires Structured(c) && Sweeps(c, q, v) && Flushes(c, v, u)
    ensures var blocks := LedgerBlocks(c.views, CanonicalViews(c, v), 0, v);
      OnLedger(blocks, (u, c.pending[u])) <==>
      u in CanonicalViews(c, v) && u in c.views && c.views[u].block == Some(c.pending[u].block)
  {
    LedgerBlocksMember(c.views, CanonicalViews(c, v), 0, v, c.pending[u].block);
    if u in c.views {
      assert CtxOk(u, c.views[u]);
    }
  }

  /** The diffs that one finalization applies are those of the blocks it writes exactly
      if they match. */
  lemma {:induction false} AppliedExactly(c: Chain, q: nat, v: nat)
    requires Structured(c) && v != c.current && Finalize(c, q, v).1.Finalized?
    ensures Sweeps(c, q, v)
    ensures var written := Ascending(Surviving(c, CanonicalViews(c, v), v, 0), 0, v);
      (forall e :: e in written ==> OnLedger(LedgerBlocks(c.views, CanonicalViews(c, v), 0, v), e)) <==> Matching(c, v)
  {
    Additions(c, q, v);
    var canonical := CanonicalViews(c, v);
    var survivors := Surviving(c, canonical, v, 0);
    var written := Ascending(survivors, 0, v);
    forall e | e in written
      ensures Flushes(c, v, e.0) && e.1 == c.pending[e.0]
    {
      AscendingMember(survivors, 0, v, e);
    }
    forall u | Flushes(c, v, u)
      ensures (u, c.pending[u]) in written
      ensures OnLedger(LedgerBlocks(c.views, canonical, 0, v), (u, c.pending[u])) <==>
        u in canonical && u in c.views && c.views[u].block == Some(c.pending[u].block)
    {
      AscendingMember(survivors, 0, v, (u, c.pending[u]));
      FlushedOnLedger(c, q, v, u);
    }
  }

  // ---- Whole runs ----

  /** A pending diff is too late to belong to a block already on the ledger. */
  lemma {:induction false} PendingIsNew(c: Chain, u: nat, blocks: seq<Block>)
    requires Settled(c) && u in c.pending
    ensures OnLedger(c.ledger + blocks, (u, c.pending[u])) <==> OnLedger(blocks, (u, c.pending[u]))
  {
    PathAscends(Genesis, c.ledger, c.tip);
    forall b | b in c.ledger
      ensures View(b) < u
    {
      var i :| 0 <= i < |c.ledger| && c.ledger[i] == b;
      ExtendsView(c.tip, b);
    }
  }

  lemma {:induction false} FinalizeKeepsApplied(c: Chain, q: nat, v: nat)
    requires Structured(c) && Settled(c) && AppliedOnLedger(c)
    requires v != c.current && Finalize(c, q, v).1.Finalized?
    ensures Sweeps(c, q, v) && (AppliedOnLedger(Finalize(c, q, v).0) <==> Matching(c, v))
  {
    Additions(c, q, v);
    AppliedExactly(c, q, v);
    var c', canonical := Finalize(c, q, v).0, CanonicalViews(c, v);
    var blocks, written := LedgerBlocks(c.views, canonical, 0, v), Ascending(Surviving(c, canonical, v, 0), 0, v);
    forall e | e in written
      ensures OnLedger(c'.ledger, e) <==> OnLedger(blocks, e)
    {
      AscendingMember(Surviving(c, canonical, v, 0), 0, v, e);
      PendingIsNew(c, e.0, blocks);
    }
    assert forall e :: e in c'.applied <==> e in c.applied || e in written;
    assert forall e :: e in c.applied ==> OnLedger(c'.ledger, e);
  }

  /** The step flushes nothing, or only diffs of the blocks it finalizes. */
  ghost predicate FlushesMatching(c: Chain, q: nat, step: Step) {
    step.FinalizeAt? && Sweeps(c, q, step.v) ==> Matching(c, step.v)
  }

  lemma {:induction false} StepKeepsApplied(c: Chain, q: nat, step: Step, c': Chain)
    requires Structured(c) && Settled(c) && AppliedOnLedger(c) && Next(c, q, step, c')
    requires step.FinalizeAt? ==> Anchored(c, q, step.v)
    ensures AppliedOnLedger(c') <==> FlushesMatching(c, q, step)
  {
    if step.FinalizeAt? {
      AllOrNothing(c, q, step.v);
      if Sweeps(c, q, step.v) {
        FinalizeKeepsApplied(c, q, step.v);
      }
    }
  }

  /** In an anchored run, every diff in storage is that of a finalized block in every
      state exactly if every finalization flushes only diffs of the blocks it finalizes. */
  lemma {:induction false} CommittedStateExactly(q: nat, run: Run)
    requires AnchoredRun(q, run)
    ensures (forall i :: 0 <= i < |run.states| ==> AppliedOnLedger(run.states[i])) <==>
            (forall i :: 0 <= i < |run.steps| ==> FlushesMatching(run.states[i], q, run.steps[i]))
  {
    if forall i :: 0 <= i < |run.states| ==> AppliedOnLedger(run.states[i]) {
      forall i | 0 <= i < |run.steps|
        ensures FlushesMatching(run.states[i], q, run.steps[i])
      {
        assert AppliedOnLedger(run.states[i]) && AppliedOnLedger(run.states[i + 1]);
        StepOfRun(q, run, i);
      }
    }
    if forall i :: 0 <= i < |run.steps| ==> FlushesMatching(run.states[i], q, run.steps[i]) {
      forall i | 0 <= i < |run.states|
        ensures AppliedOnLedger(run.states[i])
      {
        MatchingRunApplies(q, run, i);
      }
    }
  }

  lemma {:induction false} StepOfRun(q: nat, run: Run, i: nat)
    requires AnchoredRun(q, run) && i < |run.steps| && AppliedOnLedger(run.states[i])
    ensures AppliedOnLedger(run.states[i + 1]) <==> FlushesMatching(run.states[i], q, run.steps[i])
  {
    EveryRunIsStructured(q, run, i);
    AnchoredRunsSettle(q, run, i);
    StepKeepsApplied(run.states[i], q, run.steps[i], run.states[i + 1]);
  }

  lemma {:induction false} MatchingRunApplies(q: nat, run: Run, i: nat)
    requires AnchoredRun(q, run) && i < |run.states|
    requires forall k :: 0 <= k < i ==> FlushesMatching(run.states[k], q, run.steps[k])
    ensures AppliedOnLedger(run.states[i])
  {
    if i > 0 {
      MatchingRunApplies(q, run, i - 1);
      StepOfRun(q, run, i - 1);
    }
  }

  // ---- A condition on publishing ----

  /** Every pending diff was computed from the block of its view. */
  ghost predicate Backed(c: Chain) {
    forall u :: u in c.pending ==> u in c.views && c.views[u].block == Some(c.pending[u].block)
  }

  /** Publishing the diff of view `v` would publish it without its block, or the diff of
      another block. */
  predicate Foreign(c: Chain, v: nat) {
    v in c.views && c.views[v].mNot.Some? && c.views[v].stateDiff.Some?
    && c.views[v].block != Some(c.views[v].stateDiff.value.block)
  }

  ghost predicate PublishesBacked(c: Chain, step: Step) {
    && (step.Publish? ==> !Foreign(c, step.v))
    && (step.ProgressMNotarized? ==> !Foreign(c, c.current))
  }

  lemma {:induction false} BackedMatches(c: Chain, q: nat, v: nat)
    requires Structured(c) && Sweeps(c, q, v) && Backed(c)
    ensures Matching(c, v)
  {
  }

  lemma {:induction false} FinalizeKeepsBacked(c: Chain, q: nat, v: nat)
    requires Good(c) && Backed(c) && v != c.current && Anchored(c, q, v)
    ensures Backed(Finalize(c, q, v).0)
  {
    AllOrNothing(c, q, v);
    FinalizeShrinks(c, q, v);
    if Sweeps(c, q, v) {
      Additions(c, q, v);
    }
  }

  lemma {:induction false} EnterKeepsBacked(c: Chain, parent: Hash)
    requires Good(c) && Backed(c)
    ensures Backed(Enter(c, parent))
  {
  }

  lemma {:induction false} CascadeKeepsBacked(c: Chain, start: nat)
    requires Backed(c)
    ensures Backed(CascadedFrom(c, start))
  {
  }

  lemma {:induction false} UpdateKeepsBacked(c: Chain, v: nat, ctx: Ctx)
    requires Backed(c) && v in c.views && CtxStep(v, c.views[v], ctx)
    ensures Backed(c.(views := c.views[v := ctx]))
  {
  }

  lemma {:induction false} StepKeepsBacked(c: Chain, q: nat, step: Step, c': Chain)
    requires Good(c) && Backed(c) && Next(c, q, step, c') && PublishesBacked(c, step)
    requires step.FinalizeAt? ==> Anchored(c, q, step.v)
    ensures Backed(c')
  {
    match step
    case Update(v, ctx) => UpdateKeepsBacked(c, v, ctx);
    case Publish(v) =>
    case Rollback(lo, hi) =>
    case ProgressMNotarized(parent) =>
      DiffsDoNotMatter(c, OnMNotarization(c, c.current));
      EnterKeepsBacked(OnMNotarization(c, c.current), parent);
    case ProgressNullified(parent) => EnterKeepsBacked(c, parent);
    case ProgressCascade(start, parent) =>
      CascadeIsGood(c, start);
      CascadeKeepsBacked(c, start);
      EnterKeepsBacked(CascadedFrom(c, start), parent);
    case FinalizeAt(v) => FinalizeKeepsBacked(c, q, v);
  }

  ghost predicate CarefulRun(q: nat, run: Run) {
    AnchoredRun(q, run) && forall i :: 0 <= i < |run.steps| ==> PublishesBacked(run.states[i], run.steps[i])
  }

  /** If a diff is only ever published with the block it was computed from, then in every
      state of an anchored run every diff in storage is that of a finalized block, and
      every pending one that of the block of its view. */
  lemma {:induction false} CommittedStateIsLedger(q: nat, run: Run, i: nat)
    requires CarefulRun(q, run) && i < |run.states|
    ensures AppliedOnLedger(run.states[i]) && Backed(run.states[i])
  {
    if i > 0 {
      CommittedStateIsLedger(q, run, i - 1);
      var c, step := run.states[i - 1], run.steps[i - 1];
      EveryRunIsStructured(q, run, i - 1);
      StepKeepsBacked(c, q, step, run.states[i]);
      if step.FinalizeAt? && Sweeps(c, q, step.v) {
        BackedMatches(c, q, step.v);
      }
      StepOfRun(q, run, i - 1);
    }
  }
}
