/** The consensus state machine around the chain: when it nullifies, finalizes and
    cascades. */
module StateMachines {
  import opened Wrappers
  import opened Blocks
  import opened ChainState
  import opened Finalization
  import opened ChainRuns
  import opened DeferredFinalization
  import opened ViewChains
  import Evidence

  const MAX_FINALIZATIONS_PER_PASS: nat := 5

  /** The decision of `nullify_view` from what the view has recorded. */
  function NullifyDecision(ctx: Ctx, f: nat, force: bool): Evidence.Decision {
    Evidence.Decide(f, force, ctx.hasNullified, ctx.hasVoted, ctx.conflictingVotes, |ctx.nullifies|)
  }

  predicate Sends(d: Evidence.Decision) {
    d.Cascade? || d.Byzantine? || d.Timeout?
  }

  class StateMachine {
    const chain: ViewChain

    constructor (chain: ViewChain)
      ensures this.chain == chain
    {
      this.chain := chain;
    }

    /** Nullifies a view if the evidence allows it; `None` if the view is unknown. */
    method NullifyView(v: nat, force: bool) returns (d: Option<Evidence.Decision>)
      requires chain.Valid()
      modifies chain
      ensures d == if v in old(chain.views) then Some(NullifyDecision(old(chain.views)[v], chain.f, force)) else None
      ensures chain.State() ==
        if d.Some? && Sends(d.value) then MarkNullified(old(chain.State()), v) else old(chain.State())
      ensures v in old(chain.views) ==>
        var ctx := old(chain.views)[v];
        v in chain.views &&
        (chain.views[v].hasNullified <==>
           ctx.hasNullified || force || !ctx.hasVoted || ctx.conflictingVotes > chain.f
           || ctx.conflictingVotes + |ctx.nullifies| > 2 * chain.f)
      ensures chain.Valid() && (old(Settled(chain.State())) ==> Settled(chain.State()))
    {
      if v !in chain.views {
        return None;
      }
      var decision := NullifyDecision(chain.views[v], chain.f, force);
      if Sends(decision) {
        var _ := chain.Nullify(v);
      }
      return Some(decision);
    }

    /** Finalizes a view; the current view is left for later, and a view without its
        block is an error. The flag says whether the call succeeded. */
    method FinalizeView(v: nat) returns (ok: bool)
      requires chain.Valid()
      modifies chain
      ensures chain.Valid() && old(chain.currentView) in chain.views
      ensures v == old(chain.currentView) ==> ok && chain.State() == old(chain.State())
      ensures v != old(chain.currentView) && v in old(chain.views) && old(chain.views)[v].block.Some? ==>
        var (c, outcome) := Finalize(old(chain.State()), chain.Quorum(), v);
        chain.State() == c && ok == !(outcome.Rejected? || outcome.Failed?)
      ensures v !in old(chain.views) || (v != old(chain.currentView) && old(chain.views)[v].block.None?) ==>
        !ok && chain.State() == old(chain.State())
    {
      if v == chain.currentView {
        return true;
      }
      if v !in chain.views || chain.views[v].block.None? {
        return false;
      }
      FinalizeShrinks(chain.State(), chain.Quorum(), v);
      var outcome := chain.FinalizeWithLNotarization(v);
      return outcome != Rejected && outcome != Failed;
    }

    /** One attempt to finalize the oldest finalizable view. */
    method DeferredRound() returns (more: bool)
      requires chain.Valid()
      modifies chain
      ensures (chain.State(), more) == Round(old(chain.State()), chain.Quorum())
      ensures chain.Valid()
    {
      var candidate := chain.OldestFinalizableView();
      if candidate.None? {
        return false;
      }
      var v := candidate.value.0;
      var ok := FinalizeView(v);
      return ok && v !in chain.views;
    }

    /** The deferred-finalization loop on entering a new view. */
    method FinalizeDeferred()
      requires chain.Valid()
      modifies chain
      ensures chain.State() == DeferredPass(old(chain.State()), chain.Quorum(), 5)
      ensures chain.Valid()
    {
      ghost var c, q := chain.State(), chain.Quorum();
      var count := 0;
      while count < MAX_FINALIZATIONS_PER_PASS
        invariant chain.Valid() && 0 <= count <= MAX_FINALIZATIONS_PER_PASS
        invariant DeferredPass(chain.State(), q, MAX_FINALIZATIONS_PER_PASS - count) ==
                  DeferredPass(c, q, MAX_FINALIZATIONS_PER_PASS)
      {
        var more := DeferredRound();
        if !more {
          return;
        }
        count := count + 1;
      }
    }

    /** Nullifies the current view whatever its evidence, and drops the pending diffs
        from `start` on. */
    method NullifyFrom(start: nat)
      requires chain.Valid()
      modifies chain
      ensures chain.State() == CascadedFrom(old(chain.State()), start)
      ensures chain.Valid() && IsNullified(chain.views[chain.currentView])
    {
      var d := NullifyView(chain.currentView, true);
      chain.RollbackPendingDiffs(start, chain.currentView);
    }

    /** Enters the next view on its selected parent, after the current one was nullified. */
    method EnterSelected() returns (r: Reply, parent: Hash)
      requires chain.Valid() && IsNullified(chain.views[chain.currentView])
      modifies chain
      ensures r == Done && chain.Valid()
      ensures var c := old(chain.State());
        IsSelectedParent(c, c.current + 1, parent) && chain.State() == Enter(c, parent)
    {
      parent := chain.SelectParent(chain.currentView + 1);
      ParentsAreEnterable(chain.State(), parent);
      r := chain.ProgressAfterCascade(chain.currentView + 1, parent);
    }

    /** On a nullification of an earlier, M-notarized view: nullify the current view,
        drop the pending diffs from `start` on, and enter the next view, which always
        succeeds. */
    method Cascade(start: nat) returns (r: Reply, parent: Hash)
      requires chain.Valid()
      modifies chain
      ensures r == Done
      ensures var c := CascadedFrom(old(chain.State()), start);
        IsSelectedParent(c, c.current + 1, parent) && chain.State() == Enter(c, parent)
      ensures old(Triggers(chain.State(), start)) ==>
        Next(old(chain.State()), chain.Quorum(), ProgressCascade(start, parent), chain.State())
      ensures chain.Valid()
    {
      ghost var c := chain.State();
      NullifyFrom(start);
      r, parent := EnterSelected();
      if Triggers(c, start) {
        CascadeIsStep(c, chain.Quorum(), start, parent);
      }
    }
  }
}
