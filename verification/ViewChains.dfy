/** The chain of non-finalized views of one replica, updated in place. */
module ViewChains {
  import opened Wrappers
  import opened FiniteSets
  import opened Blocks
  import opened ChainState
  import opened Finalization
  import opened ChainRuns
  import opened DeferredFinalization

  ghost predicate Sorted(s: seq<nat>) {
    forall i, j :: 0 <= i < j < |s| ==> s[i] < s[j]
  }

  method Sort(s: set<nat>) returns (r: seq<nat>)
    ensures Sorted(r) && forall k :: k in r <==> k in s
  {
    r := [];
    var rest := s;
    while rest != {}
      invariant rest <= s && Sorted(r)
      invariant forall k :: k in s <==> k in rest || k in r
      invariant forall i, k :: 0 <= i < |r| && k in rest ==> r[i] < k
      decreases |rest|
    {
      var m := Least(rest);
      r := r + [m];
      rest := rest - {m};
    }
  }

  /** No view below the least key is touched by a sweep. */
  lemma {:induction false} SweepSkips(c: Chain, q: nat, canonical: set<nat>, target: nat, k: nat, least: nat)
    requires k <= least <= target && forall u :: u in c.views ==> least <= u
    ensures Sweep(c, q, canonical, target, k) == Sweep(c, q, canonical, target, least)
    decreases least - k
  {
    if k < least {
      SweepSkips(c, q, canonical, target, k + 1, least);
    }
  }

  datatype Reply = Done | Error

  class ViewChain {
    const n: nat
    const f: nat
    var currentView: nat
    var views: Views
    var tip: Hash
    var recovery: seq<(nat, Hash)>
    var pending: map<nat, Diff>
    var lastFinal: nat
    ghost var ledger: seq<Block>
    ghost var applied: seq<(nat, Diff)>
    ghost var nullified: set<nat>

    ghost function State(): Chain
      reads this
    {
      Chain(currentView, views, tip, recovery, pending, lastFinal, ledger, applied, nullified)
    }

    /** The number of votes that finalizes a block: N - F. */
    function Quorum(): (q: nat)
      ensures f <= n ==> q + f == n
    {
      if f <= n then n - f else 0
    }

    ghost predicate Valid()
      reads this
    {
      f <= n && Good(State())
    }

    constructor (n: nat, f: nat)
      requires f <= n
      ensures Valid() && this.n == n && this.f == f && State() == Init()
    {
      this.n, this.f := n, f;
      currentView, views, tip, recovery := 1, map[1 := NewCtx(Genesis)], Genesis, [];
      pending, lastFinal, ledger, applied, nullified := map[], 0, [], [], {};
    }

    // ---- Lookups, in whatever order the map is iterated ----

    method FindParentView(h: Hash) returns (r: Option<nat>)
      ensures r.Some? ==> r.value in views && views[r.value].blockHash == Some(h)
      ensures r.None? ==> forall v :: v in views ==> views[v].blockHash != Some(h)
      ensures ViewsOk(views) ==> r == FindParent(views, h)
    {
      var rest := views.Keys;
      while rest != {}
        invariant rest <= views.Keys
        invariant forall v :: v in views && v !in rest ==> views[v].blockHash != Some(h)
        decreases |rest|
      {
        var v :| v in rest;
        if views[v].blockHash == Some(h) {
          assert ViewsOk(views) ==> CtxOk(v, views[v]);
          return Some(v);
        }
        rest := rest - {v};
      }
      return None;
    }

    method SelectParent(newView: nat) returns (h: Hash)
      ensures IsSelectedParent(State(), newView, h)
    {
      var greatest: Option<(nat, Hash)> := None;
      var rest := views.Keys;
      while rest != {}
        invariant rest <= views.Keys
        invariant greatest.None? ==> forall v: nat :: Selectable(views, newView, v) ==> v in rest
        invariant greatest.Some? ==>
          var (g, hash) := greatest.value;
          && Selectable(views, newView, g) && hash == views[g].mNot.value
          && forall v: nat :: Selectable(views, newView, v) && v !in rest ==> v <= g
        decreases |rest|
      {
        var v :| v in rest;
        rest := rest - {v};
        if !IsNullified(views[v]) && v < newView && views[v].mNot.Some? {
          if greatest.None? || v > greatest.value.0 {
            greatest := Some((v, views[v].mNot.value));
          }
        }
      }
      h := if greatest.Some? then greatest.value.1 else tip;
    }

    method AllNullifiedBetween(lo: nat, hi: nat) returns (ok: bool)
      ensures ok == GapNullified(views, lo, hi)
    {
      var w := lo + 1;
      while w < hi
        invariant lo < w
        invariant forall u :: u in views && lo < u < w && u < hi ==> IsNullified(views[u])
      {
        if w in views && !IsNullified(views[w]) {
          return false;
        }
        w := w + 1;
      }
      return true;
    }

    /** The parent check of the search for a finalizable view. */
    method ParentValid(v: nat) returns (valid: bool)
      requires Valid() && v in views && v < currentView && views[v].block.Some?
      requires |views[v].votes| >= Quorum() && !IsNullified(views[v])
      ensures valid == Finalizable(State(), Quorum(), v)
    {
      assert CtxOk(v, views[v]);
      var parent := views[v].block.value.parent;
      var u := FindParentView(parent);
      if u.None? {
        return parent == tip;
      }
      var gap := AllNullifiedBetween(u.value, v);
      return views[u.value].mNot.Some? && views[u.value].block.Some? && gap;
    }

    /** The oldest view with N-F votes and a valid parent, if any. */
    method OldestFinalizableView() returns (r: Option<(nat, Hash)>)
      requires Valid()
      ensures r.None? <==> OldestFrom(State(), Quorum(), 0).None?
      ensures r.Some? ==> OldestFrom(State(), Quorum(), 0) == Some(r.value.0)
      ensures r.Some? ==> views[r.value.0].blockHash == Some(r.value.1)
    {
      var candidates := Sort(set v | v in views && |views[v].votes| >= Quorum() && views[v].block.Some?
                                     && !views[v].nullification && !views[v].hasNullified);
      ghost var c := State();
      assert forall w: nat :: Finalizable(c, Quorum(), w) ==> w in candidates;
      for i := 0 to |candidates|
        invariant forall k :: 0 <= k < i ==> !Finalizable(c, Quorum(), candidates[k])
      {
        var v := candidates[i];
        assert v in candidates;
        if v < currentView {
          assert CtxOk(v, views[v]);
          var valid := ParentValid(v);
          if valid {
            return Some((v, views[v].blockHash.value));
          }
        }
      }
      return None;
    }

    // ---- Blocks and state diffs ----

    method OnMNotarized(v: nat)
      modifies `pending
      ensures State() == OnMNotarization(old(State()), v)
    {
      if v in views && views[v].mNot.Some? && views[v].stateDiff.Some? {
        if v > lastFinal {
          pending := pending[v := views[v].stateDiff.value];
        }
      }
    }

    method StoreStateDiff(v: nat, d: Diff)
      requires Valid()
      modifies `views, `pending
      ensures State() == StoreDiff(old(State()), v, d)
      ensures Valid() && (old(Settled(State())) ==> Settled(State()))
    {
      StoreDiffIsGood(State(), v, d);
      if v in views {
        views := views[v := views[v].(stateDiff := Some(d))];
        if views[v].mNot.Some? && v < currentView && v > lastFinal {
          pending := pending[v := d];
        }
      }
    }

    /** Adds a block proposal; `joined` are the voters of the block known so far. */
    method AddBlockProposal(v: nat, block: Block, changes: nat, joined: set<PeerId>, authentic: bool)
      returns (check: ChainCheck)
      requires Valid()
      modifies `views, `pending
      ensures check == CheckProposal(old(State()), v, block)
      ensures State() == AddProposal(old(State()), v, block, changes, joined, authentic)
      ensures Valid() && (old(Settled(State())) ==> Settled(State()))
    {
      AddProposalIsGood(State(), v, block, changes, joined, authentic);
      if v !in views || views[v].block.Some? || views[v].pendingBlock.Some? || block.Genesis? {
        return Refuse;
      }
      var u := FindParentView(block.parent);
      if u.Some? {
        if views[u.value].nullification {
          return Refuse;
        }
        var gap := AllNullifiedBetween(u.value, v);
        if !gap {
          return Refuse;
        }
        if views[u.value].mNot.None? {
          views := views[v := views[v].(pendingBlock := Some(block), stateDiff := Some(Diff(block, changes)))];
          return AwaitParent;
        }
      } else if block.parent != tip {
        return Refuse;
      }
      views := views[v := TakeBlock(views[v], v, block, changes, joined, authentic)];
      OnMNotarized(v);
      return Accept;
    }

    /** Stores a recovered block; the result says whether its view can now be
        finalized, and is `None` where the source returns an error. */
    method AddRecoveredBlock(v: nat, block: Block) returns (r: Option<bool>)
      requires Valid()
      modifies `views
      ensures State() == AddRecovered(old(State()), v, block)
      ensures r.None? <==> v !in old(views) || (old(views)[v].block.None? && old(views)[v].blockHash != Some(block))
      ensures r == Some(true) <==> old(v in views && views[v].block.None? && views[v].blockHash == Some(block)
                                   && |views[v].votes| >= Quorum() && !IsNullified(views[v]))
      ensures Valid() && (old(Settled(State())) ==> Settled(State()))
    {
      AddRecoveredIsGood(State(), v, block);
      if v !in views {
        return None;
      }
      if views[v].block.Some? {
        return Some(false);
      }
      if views[v].blockHash != Some(block) {
        return None;
      }
      views := views[v := views[v].(block := Some(block))];
      return Some(|views[v].votes| >= Quorum() && !IsNullified(views[v]));
    }

    method RollbackPendingDiffs(lo: nat, hi: nat)
      requires Valid()
      modifies `pending
      ensures Valid() && State() == RemoveDiffs(old(State()), lo, hi)
      ensures old(Settled(State())) ==> Settled(State())
    {
      ghost var before := pending;
      var v := lo;
      while v <= hi
        invariant lo <= v
        invariant pending == map u | u in before && !(lo <= u < v && u <= hi) :: before[u]
        modifies `pending
      {
        pending := pending - {v};
        v := v + 1;
      }
      assert pending == RemoveDiffs(old(State()), lo, hi).pending;
    }

    /** Marks a view as nullified by this replica; an unknown view is an error. */
    method Nullify(v: nat) returns (r: Reply)
      requires Valid()
      modifies `views, `pending
      ensures r == Done <==> v in old(views)
      ensures State() == MarkNullified(old(State()), v)
      ensures Valid() && (old(Settled(State())) ==> Settled(State()))
    {
      MarkNullifiedIsGood(State(), v);
      if v !in views {
        return Error;
      }
      views := views[v := views[v].(hasNullified := true)];
      pending := pending - {v};
      assert pending == MarkNullified(old(State()), v).pending;
      return Done;
    }

    // ---- Progressing to the next view ----

    method ProgressWithMNotarization(newView: nat, parent: Hash) returns (r: Reply)
      requires Valid() && Enterable(State(), parent)
      modifies `currentView, `views, `pending
      ensures r == Done <==>
        newView == old(currentView) + 1 && old(views[currentView].mNot.Some? || views[currentView].nullification)
      ensures r == Done ==> State() == Enter(OnMNotarization(old(State()), old(currentView)), parent)
      ensures r == Error ==> State() == old(State())
      ensures Valid() && (old(Settled(State())) ==> Settled(State()))
    {
      if newView != currentView + 1 || (views[currentView].mNot.None? && !views[currentView].nullification) {
        return Error;
      }
      ProgressIsGood(State(), parent);
      PublishAndEnter(newView, parent);
      return Done;
    }

    method PublishAndEnter(newView: nat, parent: Hash)
      requires newView == currentView + 1
      modifies `currentView, `views, `pending
      ensures State() == Enter(OnMNotarization(old(State()), old(currentView)), parent)
    {
      OnMNotarized(currentView);
      currentView, views := newView, views[newView := NewCtx(parent)];
    }

    method ProgressWithNullification(newView: nat, parent: Hash) returns (r: Reply)
      requires Valid() && Enterable(State(), parent)
      modifies `currentView, `views
      ensures r == Done <==> newView == old(currentView) + 1 && old(views[currentView].nullification)
      ensures State() == if r == Done then Enter(old(State()), parent) else old(State())
      ensures Valid() && (old(Settled(State())) ==> Settled(State()))
    {
      if newView != currentView + 1 || !views[currentView].nullification {
        return Error;
      }
      ghost var c := State();
      currentView, views := newView, views[newView := NewCtx(parent)];
      ProgressIsGood(c, parent);
      return Done;
    }

    method ProgressAfterCascade(newView: nat, parent: Hash) returns (r: Reply)
      requires Valid() && Enterable(State(), parent)
      modifies `currentView, `views
      ensures r == Done <==> newView == old(currentView) + 1 && old(IsNullified(views[currentView]))
      ensures State() == if r == Done then Enter(old(State()), parent) else old(State())
      ensures Valid() && (old(Settled(State())) ==> Settled(State()))
    {
      if newView != currentView + 1 || !IsNullified(views[currentView]) {
        return Error;
      }
      ghost var c := State();
      currentView, views := newView, views[newView := NewCtx(parent)];
      ProgressIsGood(c, parent);
      return Done;
    }

    // ---- Finalization ----

    /** Applies and removes the pending diffs up to `v`, least view first. */
    method ApplyDiffsUpTo(v: nat)
      modifies `pending, `applied, `lastFinal
      ensures State() == FinalizeUpTo(old(State()), v)
    {
      ghost var before := pending;
      ghost var next: nat := 0;
      assert pending == From(before, 0);
      while exists u :: u in pending && u <= v
        invariant next <= v + 1 && pending == From(before, next)
        invariant applied + Ascending(pending, next, v) == old(applied) + Ascending(before, 0, v)
        invariant lastFinal == old(lastFinal)
        decreases pending.Keys
      {
        var m := Least(pending.Keys);
        PopLeast(applied, before, next, m, v);
        applied := applied + [(m, pending[m])];
        pending := pending - {m};
        next := m + 1;
      }
      AscendingEmpty(pending, next, v);
      if v > lastFinal {
        lastFinal := v;
      }
      assert pending == After(before, v);
    }

    /** Persists view `k` if it is on the canonical chain, else stores it as nullified,
        and removes it from the map; an error leaves what was written so far. */
    method SweepView(canonical: set<nat>, target: nat, k: nat) returns (ok: bool)
      modifies `views, `tip, `pending, `applied, `lastFinal, `ledger, `nullified
      ensures (State(), ok) == SweepOne(old(State()), Quorum(), canonical, target, k)
    {
      if k != target && k in views && views[k].mNot.Some? && views[k].blockHash.Some? && views[k].block.None?
         && (k in canonical || (!views[k].nullification && !views[k].hasNullified)) {
        return true;
      }
      if k !in views {
        return true;
      }
      var ctx := views[k];
      views := views - {k};
      if k == target || k in canonical {
        if ctx.blockHash.Some? {
          tip := ctx.blockHash.value;
        }
        if k == target || (|ctx.votes| >= Quorum() && ctx.block.Some?) {
          ApplyDiffsUpTo(k);
          if ctx.block.None? {
            return false;
          }
        }
        if ctx.block.Some? {
          ledger := ledger + [ctx.block.value];
        }
        return ctx.mNot.Some?;
      }
      pending := pending - {k};
      nullified := nullified + {k};
      return true;
    }

    /** Traces parent hashes back from `parent`, collecting the views on the way and a
        view whose block is missing. */
    method TraceCanonical(target: nat, parent: Hash) returns (canonical: set<nat>)
      requires Valid()
      modifies `recovery
      ensures State() == old(State()).(recovery := recovery)
      ensures var t := Walk(views, parent);
        && canonical == t.members + {target}
        && recovery == if t.missing.Some? then [t.missing.value] else []
    {
      canonical := {target};
      recovery := [];
      var trace := parent;
      while true
        invariant recovery == []
        invariant canonical + Walk(views, trace).members == Walk(views, parent).members + {target}
        invariant Walk(views, trace).missing == Walk(views, parent).missing
        decreases trace
        modifies `recovery
      {
        var u := FindParentView(trace);
        if u.None? {
          return;
        }
        assert CtxOk(u.value, views[u.value]);
        canonical := canonical + {u.value};
        if views[u.value].block.None? {
          recovery := recovery + [(u.value, views[u.value].blockHash.value)];
          return;
        }
        trace := views[u.value].block.value.parent;
      }
    }

    /** The checks that precede the backward walk. */
    method CheckTarget(v: nat) returns (outcome: Outcome)
      requires Valid()
      ensures outcome == CheckFinalize(State(), Quorum(), v)
    {
      if v > currentView || v !in views || |views[v].votes| < Quorum() || IsNullified(views[v]) {
        return Rejected;
      }
      if views[v].block.None? {
        return Deferred;
      }
      assert CtxOk(v, views[v]);
      var parent := views[v].block.value.parent;
      var u := FindParentView(parent);
      if u.Some? {
        if views[u.value].mNot.None? {
          return Rejected;
        }
        if views[u.value].block.None? {
          return Deferred;
        }
        if u.value >= v {
          return Rejected;
        }
        var gap := AllNullifiedBetween(u.value, v);
        return if gap then Finalized else Rejected;
      }
      return if parent == tip then Finalized else Deferred;
    }

    /** The ascending sweep from the least view in the map to the target. */
    method SweepUpTo(canonical: set<nat>, target: nat) returns (ok: bool)
      requires target in views
      modifies `views, `tip, `pending, `applied, `lastFinal, `ledger, `nullified
      ensures (State(), ok) == Sweep(old(State()), Quorum(), canonical, target, 0)
    {
      var least := Least(views.Keys);
      SweepSkips(State(), Quorum(), canonical, target, 0, least);
      var k := least;
      while k <= target
        invariant k <= target + 1
        invariant Sweep(State(), Quorum(), canonical, target, k) == old(Sweep(State(), Quorum(), canonical, target, 0))
        decreases target + 1 - k
      {
        ok := SweepView(canonical, target, k);
        if !ok {
          return;
        }
        k := k + 1;
      }
      return true;
    }

    /** Finalizes a view and collects the views before it. The invariants survive for any
        view but the current one, which leaves the map when it is finalized. */
    method FinalizeWithLNotarization(v: nat) returns (outcome: Outcome)
      requires Valid()
      modifies this
      ensures (State(), outcome) == Finalize(old(State()), Quorum(), v)
      ensures v != old(currentView) ==> Valid()
      ensures outcome == Finalized ==> v !in views && (v == old(currentView) ==> !Valid())
      ensures old(v != currentView && Settled(State()) && Anchored(State(), Quorum(), v)) ==> Settled(State())
    {
      if v != currentView {
        FinalizeIsGood(State(), Quorum(), v);
      }
      FinalizedIsGone(State(), Quorum(), v);
      outcome := CheckTarget(v);
      if outcome != Finalized {
        return;
      }
      var canonical := TraceCanonical(v, views[v].block.value.parent);
      if recovery != [] {
        return Deferred;
      }
      var ok := SweepUpTo(canonical, v);
      return if ok then Finalized else Failed;
    }
  }

  /** The entries of view `k` and later. */
  function From(p: map<nat, Diff>, k: nat): map<nat, Diff> {
    map u | u in p && u >= k :: p[u]
  }

  /** Popping the least entry of those from `next` on, onto `done`. */
  lemma {:induction false} PopLeast(done: seq<(nat, Diff)>, p: map<nat, Diff>, next: nat, m: nat, v: nat)
    requires m in From(p, next) && m <= v && forall u :: u in From(p, next) ==> m <= u
    ensures From(p, m + 1) == From(p, next) - {m}
    ensures done + Ascending(From(p, next), next, v) == done + [(m, p[m])] + Ascending(From(p, m + 1), m + 1, v)
  {
    SkipTo(From(p, next), next, m, v);
    AscendingFrame(From(p, next), From(p, m + 1), m + 1, v);
  }

  lemma {:induction false} SkipTo(p: map<nat, Diff>, next: nat, m: nat, v: nat)
    requires next <= m <= v && m in p && forall u :: u in p ==> m <= u
    ensures Ascending(p, next, v) == [(m, p[m])] + Ascending(p, m + 1, v)
    decreases m - next
  {
    if next < m {
      SkipTo(p, next + 1, m, v);
    }
  }
}
