/** What the operations of the chain do, told on the fields of the map of views: the laws
    that their definitions have to satisfy. */
module ChainLaws {
  import opened Wrappers
  import opened Blocks
  import opened ChainState
  import opened Finalization
  import opened ChainRuns
  import opened StateDiffs
  import DeferredFinalization

  // ---- Fields ----

  /** Some view of the map has `h` as its hash. */
  ghost predicate Carries(views: Views, u: nat, h: Hash) {
    u in views && views[u].blockHash == Some(h)
  }

  ghost predicate Unknown(views: Views, h: Hash) {
    forall u :: u in views ==> views[u].blockHash != Some(h)
  }

  /** Every view of the map strictly between the two is nullified. */
  ghost predicate AllLeft(views: Views, lo: nat, hi: nat) {
    forall w :: w in views && lo < w < hi ==> views[w].nullification || views[w].hasNullified
  }

  lemma {:induction false} CarriedAtItsView(views: Views, u: nat, h: Hash)
    requires ViewsOk(views) && Carries(views, u, h)
    ensures u == View(h) && h.Block? && WellFormed(h) && FindParent(views, h) == Some(u)
  {
    assert CtxOk(u, views[u]);
  }

  lemma {:induction false} FoundOrUnknown(views: Views, h: Hash)
    requires ViewsOk(views)
    ensures FindParent(views, h).None? <==> Unknown(views, h)
    ensures FindParent(views, h).Some? ==> Carries(views, FindParent(views, h).value, h)
  {
    forall u: nat | Carries(views, u, h)
      ensures FindParent(views, h) == Some(u)
    {
      CarriedAtItsView(views, u, h);
    }
  }

  // ---- The backward walk ----

  /** The walk back from `h` comes to `a`: every hash from `h` to `a` is carried, and all
      but `a` itself with its block. */
  ghost predicate Reached(views: Views, h: Hash, a: Hash) {
    && Extends(h, a) && a.Block?
    && forall x :: Extends(h, x) && Extends(x, a) ==>
         Carries(views, View(x), x) && (x != a ==> views[View(x)].block.Some?)
  }

  lemma {:induction false} ReachedStep(views: Views, h: Hash, a: Hash)
    requires ViewsOk(views) && WellFormed(h) && h.Block?
    ensures Reached(views, h, a) <==>
      Carries(views, View(h), h) && (a == h || (views[View(h)].block.Some? && Reached(views, h.parent, a)))
  {
    assert Extends(h, h) && Extends(a, a);
    if Reached(views, h, a) && a != h {
      assert Extends(h.parent, a);
      forall x | Extends(h.parent, x) && Extends(x, a)
        ensures Carries(views, View(x), x) && (x != a ==> views[View(x)].block.Some?)
      {
        assert Extends(h, x);
      }
    }
    if a == h {
      forall x | Extends(h, x) && Extends(x, a)
        ensures x == h
      {
        ExtendsView(h, x);
        ExtendsView(x, a);
      }
    }
  }

  /** The walk visits exactly the views that it comes to, and misses a block exactly if one
      of them lacks it. */
  lemma {:induction false} WalkExactly(views: Views, h: Hash, u: nat)
    requires ViewsOk(views) && WellFormed(h)
    ensures u in Walk(views, h).members <==> exists a :: Reached(views, h, a) && View(a) == u
    ensures Walk(views, h).missing.None? <==> forall a :: Reached(views, h, a) ==> views[View(a)].block.Some?
    decreases h
  {
    if h.Genesis? {
      assert forall a :: !Reached(views, h, a);
    } else {
      forall a
        ensures Reached(views, h, a) <==>
          Carries(views, View(h), h) && (a == h || (views[View(h)].block.Some? && Reached(views, h.parent, a)))
      {
        ReachedStep(views, h, a);
      }
      WalkExactly(views, h.parent, u);
      if FindParent(views, h).Some? {
        assert Reached(views, h, h);
      }
    }
  }

  // ---- Finalization: the checks ----

  /** The parent is an earlier, M-notarized view of the map with its block and only nullified
      views in between, or it is the committed tip. */
  ghost predicate OnValidParent(c: Chain, v: nat, parent: Hash) {
    || (Unknown(c.views, parent) && parent == c.tip)
    || exists u: nat :: Carries(c.views, u, parent) && u < v && c.views[u].mNot.Some? && c.views[u].block.Some?
                        && AllLeft(c.views, u, v)
  }

  /** The view has N-F votes and its block, and was not nullified. */
  ghost predicate Voted(c: Chain, q: nat, v: nat) {
    && v in c.views && |c.views[v].votes| >= q && c.views[v].block.Some?
    && !c.views[v].nullification && !c.views[v].hasNullified
  }

  ghost predicate Passes(c: Chain, q: nat, v: nat) {
    Voted(c, q, v) && c.views[v].block.value.Block? && OnValidParent(c, v, c.views[v].block.value.parent)
  }

  /** The walk comes to no view that lacks its block. */
  ghost predicate BlocksThere(views: Views, h: Hash) {
    forall a :: Reached(views, h, a) ==> views[View(a)].block.Some?
  }

  /** The call is refused: the view is unknown, has too few votes or was nullified, or its
      parent view is not M-notarized, or has its block and an unsettled view after it. */
  ghost predicate Refused(c: Chain, q: nat, v: nat) {
    || v !in c.views || |c.views[v].votes| < q || c.views[v].nullification || c.views[v].hasNullified
    || (c.views[v].block.Some? && c.views[v].block.value.Block?
        && exists u: nat :: Carries(c.views, u, c.views[v].block.value.parent)
                            && (c.views[u].mNot.None? || (c.views[u].block.Some? && !AllLeft(c.views, u, v))))
  }

  lemma {:induction false} ChecksExactly(c: Chain, q: nat, v: nat)
    requires Structured(c)
    ensures CheckFinalize(c, q, v).Finalized? <==> Passes(c, q, v)
    ensures CheckFinalize(c, q, v).Rejected? <==> Refused(c, q, v)
  {
    if v in c.views && c.views[v].block.Some? {
      assert CtxOk(v, c.views[v]);
      var parent := c.views[v].block.value.parent;
      FoundOrUnknown(c.views, parent);
      forall u: nat | Carries(c.views, u, parent)
        ensures u == View(parent) && FindParent(c.views, parent) == Some(u)
      {
        CarriedAtItsView(c.views, u, parent);
      }
    }
  }

  lemma {:induction false} MissingIsReached(views: Views, h: Hash)
    requires ViewsOk(views) && WellFormed(h) && Walk(views, h).missing.Some?
    ensures var (u, a) := Walk(views, h).missing.value;
      u == View(a) && Reached(views, h, a) && views[u].block.None?
    decreases h
  {
    ReachedStep(views, h, h);
    if views[View(h)].block.Some? {
      MissingIsReached(views, h.parent);
      ReachedStep(views, h, Walk(views, h).missing.value.1);
    }
  }

  /** The recovery list names a block that is missing on the way back from `h`. */
  ghost predicate AsksFor(c: Chain, h: Hash, recovery: seq<(nat, Hash)>) {
    && |recovery| == 1 && Reached(c.views, h, recovery[0].1) && recovery[0].0 == View(recovery[0].1)
    && c.views[recovery[0].0].block.None?
  }

  /** A finalization starts to change the chain exactly if the view has its votes and its
      block and was not nullified, its parent is valid, and no block is missing on the way
      back. It is refused exactly in the cases of `Refused`. Otherwise it waits, and asks for
      the missing block if only that stands in its way. */
  lemma {:induction false} FinalizesExactly(c: Chain, q: nat, v: nat)
    requires Structured(c)
    ensures var (c', outcome) := Finalize(c, q, v);
      && (outcome.Finalized? || outcome.Failed? <==>
            Passes(c, q, v) && BlocksThere(c.views, c.views[v].block.value.parent))
      && (outcome.Rejected? <==> Refused(c, q, v))
      && (outcome.Rejected? || (outcome.Deferred? && !Passes(c, q, v)) ==> c' == c)
      && (outcome.Deferred? && Passes(c, q, v) ==>
            c' == c.(recovery := c'.recovery) && AsksFor(c, c.views[v].block.value.parent, c'.recovery))
  {
    ChecksExactly(c, q, v);
    if Passes(c, q, v) {
      assert CtxOk(v, c.views[v]);
      var parent := c.views[v].block.value.parent;
      WalkExactly(c.views, parent, 0);
      if Walk(c.views, parent).missing.Some? {
        MissingIsReached(c.views, parent);
      }
    }
  }

  // ---- The search for a view to finalize ----

  /** The search accepts exactly the earlier views that pass the checks of finalization. */
  lemma {:induction false} SearchesExactly(c: Chain, q: nat, v: nat)
    requires Structured(c)
    ensures Finalizable(c, q, v) <==> v < c.current && Passes(c, q, v)
  {
    ChecksExactly(c, q, v);
    if v in c.views {
      assert CtxOk(v, c.views[v]);
      if c.views[v].block.Some? {
        FoundOrUnknown(c.views, c.views[v].block.value.parent);
      }
    }
  }

  /** It finds the least of them; if it finds none, no earlier view can be finalized. */
  lemma {:induction false} FindsOldest(c: Chain, q: nat)
    requires Structured(c)
    ensures match DeferredFinalization.OldestFrom(c, q, 0)
      case Some(v) =>
        v < c.current && Passes(c, q, v) && forall u: nat :: u < v ==> !Passes(c, q, u)
      case None =>
        forall u: nat :: u < c.current ==>
          && !Passes(c, q, u) && Finalize(c, q, u).0 == c
          && (Finalize(c, q, u).1.Rejected? || Finalize(c, q, u).1.Deferred?)
  {
    var found := DeferredFinalization.OldestFrom(c, q, 0);
    forall u: nat
      ensures Finalizable(c, q, u) <==> u < c.current && Passes(c, q, u)
      ensures u < c.current && !Passes(c, q, u) ==>
        Finalize(c, q, u).0 == c && (Finalize(c, q, u).1.Rejected? || Finalize(c, q, u).1.Deferred?)
    {
      SearchesExactly(c, q, u);
      if u < c.current {
        FinalizesExactly(c, q, u);
      }
    }
  }

  /** The chain `d` with which the loop stops, and what it leaves: no earlier view of `d` can
      be finalized, or the least one is deferred or fails. */
  ghost predicate Stops(d: Chain, q: nat, c': Chain) {
    || (c' == d && forall u: nat :: u < d.current ==> !Passes(d, q, u))
    || exists v: nat ::
         && v < d.current && Passes(d, q, v) && (forall u: nat :: u < v ==> !Passes(d, q, u))
         && c' == Finalize(d, q, v).0 && (Finalize(d, q, v).1.Deferred? || Finalize(d, q, v).1.Failed?)
  }

  /** A round goes on exactly if it has finalized the least view that passes the checks. */
  lemma {:induction false} RoundExactly(c: Chain, q: nat)
    requires Good(c)
    ensures var (c', more) := DeferredFinalization.Round(c, q);
      if more
      then exists v: nat ::
        && v < c.current && Passes(c, q, v) && (forall u: nat :: u < v ==> !Passes(c, q, u))
        && Finalize(c, q, v) == (c', Finalized)
      else Stops(c, q, c')
  {
    FindsOldest(c, q);
    if DeferredFinalization.OldestFrom(c, q, 0).Some? {
      var v := DeferredFinalization.OldestFrom(c, q, 0).value;
      FinalizableIsNotRejected(c, q, v);
    }
  }

  ghost function StopsFor(q: nat): (Chain, Chain) -> bool {
    (d: Chain, c': Chain) => Stops(d, q, c')
  }

  /** The loop ends after fewer rounds than its limit only if no earlier view can be
      finalized then, or the least one is deferred or fails. */
  lemma {:induction false} PassEnds(c: Chain, q: nat, n: nat)
    requires Good(c)
    ensures var k := DeferredFinalization.Taken(DeferredFinalization.Rounds(q), c, n);
      && k <= n
      && (k < n ==> Stops(DeferredFinalization.DeferredPass(c, q, k), q, DeferredFinalization.DeferredPass(c, q, n)))
  {
    var step, kept := DeferredFinalization.Rounds(q), DeferredFinalization.GoodChains();
    forall x | kept(x)
      ensures kept(step(x).0) && (!step(x).1 ==> StopsFor(q)(x, step(x).0))
    {
      DeferredFinalization.RoundShrinks(x, q);
      RoundExactly(x, q);
    }
    DeferredFinalization.RepeatEnds(step, kept, StopsFor(q), c, n);
    var k := DeferredFinalization.Taken(step, c, n);
    assert k < n ==>
      StopsFor(q)(DeferredFinalization.DeferredPass(c, q, k), DeferredFinalization.DeferredPass(c, q, n));
  }

  // ---- Finalization: the fate of every view ----

  /** The view is the target, or the walk back from it comes to it. */
  ghost predicate OnChain(c: Chain, v: nat, u: nat)
    requires v in c.views && c.views[v].block.Some? && c.views[v].block.value.Block?
  {
    u == v || exists a :: Reached(c.views, c.views[v].block.value.parent, a) && View(a) == u
  }

  /** A view that is M-notarized and not nullified, and whose block is still to come. */
  predicate AwaitsBlock(ctx: Ctx) {
    && ctx.mNot.Some? && ctx.blockHash.Some? && ctx.block.None?
    && !ctx.nullification && !ctx.hasNullified
  }

  lemma {:induction false} CanonicalExactly(c: Chain, q: nat, v: nat, u: nat)
    requires Structured(c) && Sweeps(c, q, v)
    ensures u in CanonicalViews(c, v) <==> OnChain(c, v, u)
  {
    assert CtxOk(v, c.views[v]);
    WalkExactly(c.views, c.views[v].block.value.parent, u);
  }

  /** The call that starts to change the chain completes exactly if every view on the way
      is M-notarized. */
  lemma {:induction false} CompletesExactly(c: Chain, q: nat, v: nat)
    requires Structured(c) && v != c.current && Sweeps(c, q, v)
    ensures Finalize(c, q, v).1.Finalized? <==>
      forall u: nat :: u in c.views && OnChain(c, v, u) ==> c.views[u].mNot.Some?
  {
    AllOrNothing(c, q, v);
    forall u: nat
      ensures u in CanonicalViews(c, v) <==> OnChain(c, v, u)
    {
      CanonicalExactly(c, q, v, u);
    }
  }

  /** A completed finalization leaves later views alone, writes the views on the chain,
      keeps those that await their block, and stores the others as nullified. */
  lemma {:induction false} FateExactly(c: Chain, q: nat, v: nat, u: nat)
    requires Structured(c) && v != c.current && Finalize(c, q, v).1.Finalized? && u in c.views
    ensures var c' := Finalize(c, q, v).0;
      && Sweeps(c, q, v)
      && (u > v ==> u in c'.views && c'.views[u] == c.views[u])
      && (u <= v && OnChain(c, v, u) ==> u !in c'.views && c.views[u].block.Some?)
      && (u <= v && !OnChain(c, v, u) && AwaitsBlock(c.views[u]) ==> u in c'.views && c'.views[u] == c.views[u])
      && (u <= v && !OnChain(c, v, u) && !AwaitsBlock(c.views[u]) ==> u !in c'.views && u in c'.nullified)
      && (u in c'.nullified && u !in c.nullified ==> u <= v && !OnChain(c, v, u) && !AwaitsBlock(c.views[u]))
  {
    AllOrNothing(c, q, v);
    CanonicalExactly(c, q, v, u);
    SweepIsReady(c, q, v);
  }

  /** It appends to the ledger exactly the blocks of the views on the chain, in a path that
      ends with the target's block, which becomes the tip. */
  lemma {:induction false} WritesExactly(c: Chain, q: nat, v: nat) returns (blocks: seq<Block>)
    requires Structured(c) && v != c.current && Finalize(c, q, v).1.Finalized?
    ensures var c' := Finalize(c, q, v).0;
      && Sweeps(c, q, v) && c'.ledger == c.ledger + blocks
      && c'.tip == c.views[v].block.value && c'.current == c.current
      && blocks != [] && blocks[0].Block? && IsPath(blocks[0].parent, blocks, c'.tip)
      && forall b :: b in blocks <==> View(b) in c.views && OnChain(c, v, View(b)) && c.views[View(b)].block == Some(b)
  {
    AllOrNothing(c, q, v);
    SweepIsReady(c, q, v);
    blocks := LedgerBlocks(c.views, CanonicalViews(c, v), 0, v);
    WrittenBlocksAreLinked(c, q, v);
    forall b
      ensures b in blocks <==> View(b) in c.views && OnChain(c, v, View(b)) && c.views[View(b)].block == Some(b)
    {
      LedgerBlocksMember(c.views, CanonicalViews(c, v), 0, v, b);
      CanonicalExactly(c, q, v, View(b));
    }
  }

  // ---- State diffs ----

  ghost predicate AscendingViews(es: seq<(nat, Diff)>) {
    forall i, j :: 0 <= i < j < |es| ==> es[i].0 < es[j].0
  }

  lemma {:induction false} AscendingOrdered(p: map<nat, Diff>, lo: nat, hi: nat)
    ensures AscendingViews(Ascending(p, lo, hi))
    decreases hi + 1 - lo
  {
    if lo <= hi {
      AscendingOrdered(p, lo + 1, hi);
      forall e | e in Ascending(p, lo + 1, hi)
        ensures lo < e.0
      {
        AscendingMember(p, lo + 1, hi, e);
      }
    }
  }

  /** The view leaves the map as nullified. */
  ghost predicate GivenUp(c: Chain, v: nat, u: nat)
    requires v in c.views && c.views[v].block.Some? && c.views[v].block.value.Block?
  {
    u in c.views && !OnChain(c, v, u) && !AwaitsBlock(c.views[u])
  }

  lemma {:induction false} GivenUpExactly(c: Chain, q: nat, v: nat, u: nat)
    requires Structured(c) && Sweeps(c, q, v)
    ensures Dropped(c.views, CanonicalViews(c, v), u) <==> GivenUp(c, v, u)
  {
    CanonicalExactly(c, q, v, u);
  }

  lemma {:induction false} SurvivorsExactly(c: Chain, q: nat, v: nat, e: (nat, Diff))
    requires Structured(c) && Sweeps(c, q, v)
    ensures e in Ascending(Surviving(c, CanonicalViews(c, v), v, 0), 0, v) <==>
      e.0 <= v && e.0 in c.pending && e.1 == c.pending[e.0] && !GivenUp(c, v, e.0)
  {
    AscendingMember(Surviving(c, CanonicalViews(c, v), v, 0), 0, v, e);
    GivenUpExactly(c, q, v, e.0);
  }

  /** A completed finalization applies the pending diffs of the views up to the target in
      ascending order, all but those of the views that it stores as nullified. */
  lemma {:induction false} AppliesExactly(c: Chain, q: nat, v: nat) returns (es: seq<(nat, Diff)>)
    requires Structured(c) && v != c.current && Finalize(c, q, v).1.Finalized?
    ensures var c' := Finalize(c, q, v).0;
      && Sweeps(c, q, v) && c'.applied == c.applied + es && AscendingViews(es)
      && (forall e :: e in es <==> e.0 <= v && e.0 in c.pending && e.1 == c.pending[e.0] && !GivenUp(c, v, e.0))
      && (forall u :: u in c'.pending <==> u in c.pending && u > v)
      && (forall u :: u in c'.pending ==> c'.pending[u] == c.pending[u])
      && c'.lastFinal == (if c.lastFinal < v then v else c.lastFinal)
  {
    AllOrNothing(c, q, v);
    SweepIsReady(c, q, v);
    SweepDiffs(c.(recovery := []), q, CanonicalViews(c, v), v, 0);
    es := Ascending(Surviving(c, CanonicalViews(c, v), v, 0), 0, v);
    AscendingOrdered(Surviving(c, CanonicalViews(c, v), v, 0), 0, v);
    forall e
      ensures e in es <==> e.0 <= v && e.0 in c.pending && e.1 == c.pending[e.0] && !GivenUp(c, v, e.0)
    {
      SurvivorsExactly(c, q, v, e);
    }
  }

  /** Flushing up to a view applies the pending diffs up to it, and no other, in order. */
  lemma {:induction false} FlushExactly(c: Chain, v: nat) returns (es: seq<(nat, Diff)>)
    ensures var c' := FinalizeUpTo(c, v);
      && c'.applied == c.applied + es && AscendingViews(es)
      && (forall e :: e in es <==> e.0 <= v && e.0 in c.pending && e.1 == c.pending[e.0])
      && (forall u :: u in c'.pending <==> u in c.pending && u > v)
      && (forall u :: u in c'.pending ==> c'.pending[u] == c.pending[u])
      && c'.lastFinal == (if c.lastFinal < v then v else c.lastFinal)
      && c' == c.(applied := c'.applied, pending := c'.pending, lastFinal := c'.lastFinal)
  {
    es := Ascending(c.pending, 0, v);
    AscendingOrdered(c.pending, 0, v);
    forall e
      ensures e in es <==> e.0 <= v && e.0 in c.pending && e.1 == c.pending[e.0]
    {
      AscendingMember(c.pending, 0, v, e);
    }
  }

  /** Nothing but pending diffs changes, and of those only that of view `v`. */
  ghost predicate OnlyDiffOf(c: Chain, c': Chain, v: nat) {
    && c' == c.(pending := c'.pending)
    && forall u :: u != v ==>
         (u in c'.pending <==> u in c.pending) && (u in c.pending ==> c'.pending[u] == c.pending[u])
  }

  /** A view's diff is published exactly if the view is M-notarized, has a diff and is later
      than what was flushed last. */
  lemma {:induction false} PublishesExactly(c: Chain, v: nat)
    ensures var c' := OnMNotarization(c, v);
      && OnlyDiffOf(c, c', v)
      && (if v in c.views && c.views[v].mNot.Some? && c.views[v].stateDiff.Some? && v > c.lastFinal
          then v in c'.pending && Some(c'.pending[v]) == c.views[v].stateDiff
          else c' == c)
  {
  }

  /** A stored diff becomes that of its view, and is published at once if the view is
      M-notarized, was left behind and is later than what was flushed last. */
  lemma {:induction false} StoresExactly(c: Chain, v: nat, d: Diff)
    ensures var c' := StoreDiff(c, v, d);
      if v !in c.views then c' == c
      else
        && OnlyDiffOf(c.(views := c'.views), c', v) && c'.views == c.views[v := c'.views[v]]
        && c'.views[v].stateDiff == Some(d) && c'.views[v].(stateDiff := c.views[v].stateDiff) == c.views[v]
        && (if c.views[v].mNot.Some? && v < c.current && v > c.lastFinal
            then v in c'.pending && c'.pending[v] == d else c'.pending == c.pending)
  {
  }

  lemma {:induction false} RollbackExactly(c: Chain, lo: nat, hi: nat)
    ensures var c' := RemoveDiffs(c, lo, hi);
      && c' == c.(pending := c'.pending)
      && (forall u :: u in c'.pending <==> u in c.pending && (u < lo || hi < u))
      && (forall u :: u in c'.pending ==> c'.pending[u] == c.pending[u])
  {
  }

  // ---- Nullifying ----

  /** Only the flag of the view and its pending diff change. */
  lemma {:induction false} MarksExactly(c: Chain, v: nat)
    ensures var c' := MarkNullified(c, v);
      if v !in c.views then c' == c
      else
        && OnlyDiffOf(c.(views := c'.views), c', v) && v !in c'.pending
        && c'.views == c.views[v := c'.views[v]] && c'.views[v].hasNullified
        && c'.views[v].(hasNullified := c.views[v].hasNullified) == c.views[v]
  {
  }

  /** A cascade marks the current view and drops the diffs from its start on. */
  lemma {:induction false} CascadesExactly(c: Chain, start: nat)
    requires c.current in c.views && start <= c.current
    ensures var c' := CascadedFrom(c, start);
      && c' == c.(views := c'.views, pending := c'.pending)
      && c'.views == c.views[c.current := c'.views[c.current]] && c'.views[c.current].hasNullified
      && c'.views[c.current].(hasNullified := c.views[c.current].hasNullified) == c.views[c.current]
      && (forall u :: u in c'.pending <==> u in c.pending && (u < start || c.current < u))
      && (forall u :: u in c'.pending ==> c'.pending[u] == c.pending[u])
  {
  }

  // ---- Entering a view ----

  /** A view as it is entered: nothing has arrived. */
  ghost predicate Fresh(ctx: Ctx, parent: Hash) {
    && ctx.parentHash == parent && ctx.block.None? && ctx.blockHash.None? && ctx.pendingBlock.None?
    && ctx.stateDiff.None? && ctx.votes == {} && ctx.mNot.None? && !ctx.nullification && !ctx.hasNullified
    && !ctx.hasVoted && ctx.conflictingVotes == 0 && ctx.nullifies == {}
  }

  lemma {:induction false} EntersExactly(c: Chain, parent: Hash)
    ensures var c' := Enter(c, parent);
      && c'.current == c.current + 1 && c'.current in c'.views && Fresh(c'.views[c'.current], parent)
      && c' == c.(current := c'.current, views := c.views[c'.current := c'.views[c'.current]])
  {
  }

  lemma {:induction false} StartsExactly()
    ensures var c := Init();
      && c.current == 1 && c.views.Keys == {1} && Fresh(c.views[1], Genesis) && c.tip == Genesis
      && c.pending == map[] && c.lastFinal == 0 && c.ledger == [] && c.applied == [] && c.nullified == {}
      && c.recovery == []
  {
  }

  // ---- The selected parent ----

  /** The view is M-notarized, and neither a certificate nor this replica nullified it. */
  predicate Live(views: Views, u: nat) {
    u in views && views[u].mNot.Some? && !views[u].nullification && !views[u].hasNullified
  }

  /** The selected parent is the notarized hash of the last live view before the new one, or
      the committed tip if there is none. */
  lemma {:induction false} SelectsExactly(c: Chain, newView: nat, h: Hash)
    ensures IsSelectedParent(c, newView, h) <==>
      || (h == c.tip && forall u: nat :: u < newView ==> !Live(c.views, u))
      || exists u: nat :: u < newView && Live(c.views, u) && c.views[u].mNot == Some(h)
                          && forall w: nat :: u < w < newView ==> !Live(c.views, w)
  {
    forall u: nat
      ensures Selectable(c.views, newView, u) <==> u < newView && Live(c.views, u)
    {
    }
  }

  /** In every run, the selected parent is not the block of a view of the map that is
      nullified, and the views of the map after it are nullified or not M-notarized. */
  lemma {:induction false} SelectedIsLive(q: nat, run: Run, i: nat, newView: nat, h: Hash)
    requires IsRun(q, run) && i < |run.states| && IsSelectedParent(run.states[i], newView, h)
    ensures var views := run.states[i].views;
      && (forall u :: u in views && views[u].blockHash == Some(h) ==> !views[u].nullification && !views[u].hasNullified)
      && (forall w :: w in views && View(h) < w < newView ==>
            views[w].nullification || views[w].hasNullified || views[w].mNot.None?)
  {
    var c := run.states[i];
    EveryRunIsStructured(q, run, i);
    SelectsExactly(c, newView, h);
    forall u: nat | Carries(c.views, u, h)
      ensures u == View(h)
    {
      CarriedAtItsView(c.views, u, h);
    }
    forall w: nat | w in c.views && View(h) < w < newView
      ensures !Live(c.views, w)
    {
      if !(h == c.tip && forall u: nat :: u < newView ==> !Live(c.views, u)) {
        var u: nat :| u < newView && Live(c.views, u) && c.views[u].mNot == Some(h)
          && forall w: nat :: u < w < newView ==> !Live(c.views, w);
        assert CtxOk(u, c.views[u]);
      }
    }
  }

  // ---- Proposals ----

  /** The parent of a proposal for view `v` is a view of the map without a nullification, and
      the views in between are nullified. */
  ghost predicate ParentInMap(c: Chain, v: nat, parent: Hash, u: nat) {
    Carries(c.views, u, parent) && !c.views[u].nullification && AllLeft(c.views, u, v)
  }

  ghost predicate Vacant(c: Chain, v: nat) {
    v in c.views && c.views[v].block.None? && c.views[v].pendingBlock.None?
  }

  /** A proposal is accepted exactly if its view is vacant and its parent is the tip, or an
      M-notarized view as above; it waits exactly if that view is not M-notarized. */
  lemma {:induction false} ProposalCheckExactly(c: Chain, v: nat, block: Block)
    requires ViewsOk(c.views) && block.Block?
    ensures CheckProposal(c, v, block).Accept? <==>
      && Vacant(c, v)
      && ((Unknown(c.views, block.parent) && block.parent == c.tip)
          || exists u: nat :: ParentInMap(c, v, block.parent, u) && c.views[u].mNot.Some?)
    ensures CheckProposal(c, v, block).AwaitParent? <==>
      Vacant(c, v) && exists u: nat :: ParentInMap(c, v, block.parent, u) && c.views[u].mNot.None?
  {
    FoundOrUnknown(c.views, block.parent);
    forall u: nat | Carries(c.views, u, block.parent)
      ensures FindParent(c.views, block.parent) == Some(u)
    {
      CarriedAtItsView(c.views, u, block.parent);
    }
  }

  /** It is refused exactly if the view is unknown or occupied, the parent is neither in the
      map nor the tip, the parent's view has a nullification, or a view in between is not
      nullified; then nothing changes. */
  lemma {:induction false} RefusesExactly(
    c: Chain, v: nat, block: Block, changes: nat, joined: set<PeerId>, authentic: bool)
    requires ViewsOk(c.views) && block.Block?
    ensures CheckProposal(c, v, block).Refuse? <==>
      || !Vacant(c, v)
      || (Unknown(c.views, block.parent) && block.parent != c.tip)
      || exists u: nat :: Carries(c.views, u, block.parent) && (c.views[u].nullification || !AllLeft(c.views, u, v))
    ensures CheckProposal(c, v, block).Refuse? ==> AddProposal(c, v, block, changes, joined, authentic) == c
  {
    FoundOrUnknown(c.views, block.parent);
    forall u: nat | Carries(c.views, u, block.parent)
      ensures FindParent(c.views, block.parent) == Some(u)
    {
      CarriedAtItsView(c.views, u, block.parent);
    }
  }

  /** The block is one of this view on its parent, authentic, and contradicts no M-notarization. */
  predicate Fits(ctx: Ctx, v: nat, block: Block, authentic: bool) {
    && block.Block? && block.view == v && block.parent == ctx.parentHash && authentic
    && (ctx.mNot.Some? ==> ctx.mNot.value == block)
  }

  /** An accepted block that fits is stored with its hash, its diff and the early voters; one
      that does not fit is not. The diff of the view is published if it is M-notarized. */
  lemma {:induction false} AcceptStores(
    c: Chain, v: nat, block: Block, changes: nat, joined: set<PeerId>, authentic: bool)
    requires CheckProposal(c, v, block).Accept?
    ensures var c' := AddProposal(c, v, block, changes, joined, authentic);
      && v in c.views && v in c'.views && c'.views == c.views[v := c'.views[v]]
      && (if Fits(c.views[v], v, block, authentic)
          then
            && c'.views[v].block == Some(block) && c'.views[v].blockHash == Some(block)
            && c'.views[v].stateDiff == Some(Diff(block, changes)) && c'.views[v].votes == c.views[v].votes + joined
            && c.views[v] == c'.views[v].(block := c.views[v].block, blockHash := c.views[v].blockHash,
                                          stateDiff := c.views[v].stateDiff, votes := c.views[v].votes)
          else c'.views[v] == c.views[v])
      && OnlyDiffOf(c.(views := c'.views), c', v)
      && (if c'.views[v].mNot.Some? && c'.views[v].stateDiff.Some? && v > c.lastFinal
          then v in c'.pending && Some(c'.pending[v]) == c'.views[v].stateDiff
          else c'.pending == c.pending)
  {
  }

  /** A proposal that waits for its parent is parked with its diff, and nothing else changes. */
  lemma {:induction false} AwaitParks(
    c: Chain, v: nat, block: Block, changes: nat, joined: set<PeerId>, authentic: bool)
    requires CheckProposal(c, v, block).AwaitParent?
    ensures var c' := AddProposal(c, v, block, changes, joined, authentic);
      && v in c.views && v in c'.views && c' == c.(views := c.views[v := c'.views[v]])
      && c'.views[v].pendingBlock == Some(block) && c'.views[v].stateDiff == Some(Diff(block, changes))
      && c.views[v] == c'.views[v].(pendingBlock := c.views[v].pendingBlock, stateDiff := c.views[v].stateDiff)
  {
  }

  /** A recovered block is stored exactly if its view lacks its block and has its hash. */
  lemma {:induction false} RecoversExactly(c: Chain, v: nat, block: Block)
    ensures var c' := AddRecovered(c, v, block);
      if v in c.views && c.views[v].block.None? && c.views[v].blockHash == Some(block)
      then
        && v in c'.views && c' == c.(views := c.views[v := c'.views[v]])
        && c'.views[v].block == Some(block) && c'.views[v].(block := None) == c.views[v]
      else c' == c
  {
  }
}
