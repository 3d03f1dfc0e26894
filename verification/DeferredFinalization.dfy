/** The deferred-finalization loop, and how global consistency keeps it on one chain. */
module DeferredFinalization {
  import opened Wrappers
  import opened Blocks
  import opened ChainState
  import opened Finalization
  import opened ChainRuns
  import Protocol

  /** The finalizable view with the least number from `k` on. */
  function OldestFrom(c: Chain, q: nat, k: nat): (r: Option<nat>)
    ensures r.Some? ==> k <= r.value && Finalizable(c, q, r.value)
    ensures r.Some? ==> forall v :: k <= v < r.value ==> !Finalizable(c, q, v)
    ensures r.None? ==> forall v :: k <= v ==> !Finalizable(c, q, v)
    decreases c.current - k
  {
    if k >= c.current then None
    else if Finalizable(c, q, k) then Some(k)
    else OldestFrom(c, q, k + 1)
  }

  /** One round: finalize the oldest finalizable view. The loop goes on unless there is
      none, on an error, or when the view stays in the map. */
  function Round(c: Chain, q: nat): (Chain, bool) {
    match OldestFrom(c, q, 0)
    case None => (c, false)
    case Some(v) =>
      var (c1, outcome) := Finalize(c, q, v);
      (c1, !outcome.Rejected? && !outcome.Failed? && v !in c1.views)
  }

  /** At most `n` steps, as long as they ask for more. */
  function Repeat(step: Chain -> (Chain, bool), c: Chain, n: nat): Chain
    decreases n
  {
    if n == 0 then c
    else
      var (c1, more) := step(c);
      if more then Repeat(step, c1, n - 1) else c1
  }

  /** The number of steps, of at most `n`, that ask for more. */
  function Taken(step: Chain -> (Chain, bool), c: Chain, n: nat): nat
    decreases n
  {
    if n == 0 || !step(c).1 then 0 else 1 + Taken(step, step(c).0, n - 1)
  }

  /** A step that does not ask for more ends the loop: `stops` relates the chain before it to
      the one after it. */
  lemma {:induction false} RepeatEnds(
    step: Chain -> (Chain, bool), kept: Chain -> bool, stops: (Chain, Chain) -> bool, c: Chain, n: nat)
    requires kept(c) && forall x :: kept(x) ==> kept(step(x).0) && (!step(x).1 ==> stops(x, step(x).0))
    ensures var k := Taken(step, c, n); k <= n && (k < n ==> stops(Repeat(step, c, k), Repeat(step, c, n)))
    decreases n
  {
    if n > 0 && step(c).1 {
      RepeatEnds(step, kept, stops, step(c).0, n - 1);
    }
  }

  function Rounds(q: nat): Chain -> (Chain, bool) {
    (c: Chain) => Round(c, q)
  }

  /** At most `n` rounds. */
  function DeferredPass(c: Chain, q: nat, n: nat): Chain {
    Repeat(Rounds(q), c, n)
  }

  // ---- One branch ----

  /** A view that carries N-F votes and can still be finalized. */
  predicate Voted(c: Chain, q: nat, u: nat) {
    u in c.views && |c.views[u].votes| >= q && c.views[u].block.Some? && !IsNullified(c.views[u])
  }

  /** Blocks with N-F votes lie on one branch, which extends the committed tip. */
  ghost predicate OneBranch(c: Chain, q: nat) {
    && (forall u :: Voted(c, q, u) ==> Extends(c.views[u].block.value, c.tip))
    && (forall u, w :: Voted(c, q, u) && Voted(c, q, w) && u <= w ==>
          Extends(c.views[w].block.value, c.views[u].block.value))
  }

  /** This replica knows the hash and holds an M-notarization of `h` and of every ancestor
      of it that is later than the committed tip. */
  ghost predicate Held(c: Chain, h: Hash) {
    forall a :: Extends(h, a) && View(c.tip) < View(a) ==>
      FindParent(c.views, a).Some? && c.views[View(a)].mNot.Some?
  }

  ghost predicate AncestorsHeld(c: Chain, q: nat) {
    forall u :: Voted(c, q, u) ==> Held(c, c.views[u].block.value)
  }

  ghost predicate AllNotarizedOn(c: Chain, members: set<nat>) {
    forall u :: u in members ==> u in c.views && c.views[u].mNot.Some?
  }

  /** A walk from a descendant of the tip that meets no missing block ends at the tip and
      crosses only M-notarized views exactly if everything above the tip is held. */
  lemma {:induction false} HeldAtTip(c: Chain)
    requires WellFormed(c.tip)
    ensures Held(c, c.tip)
  {
    forall a | Extends(c.tip, a)
      ensures View(a) <= View(c.tip)
    {
      ExtendsView(c.tip, a);
    }
  }

  lemma {:induction false} HeldWalk(c: Chain, h: Hash)
    requires Structured(c) && TipGone(c) && WellFormed(h) && Extends(h, c.tip)
    requires Walk(c.views, h).missing.None?
    ensures var t := Walk(c.views, h); t.bottom == c.tip && AllNotarizedOn(c, t.members) <==> Held(c, h)
    decreases h
  {
    if h == c.tip {
      assert FindParent(c.views, h).None?;
      HeldAtTip(c);
    } else {
      HeldTarget(c, h);
      if FindParent(c.views, h).Some? {
        HeldWalk(c, h.parent);
        WalkMembers(c.views, h.parent);
      }
    }
  }

  /** A finalization that starts its sweep is anchored exactly if its block descends from
      the committed tip and this replica holds every ancestor in between. */
  lemma {:induction false} AnchoredExactly(c: Chain, q: nat, v: nat)
    requires Structured(c) && TipGone(c) && Sweeps(c, q, v)
    ensures Anchored(c, q, v) <==> Extends(c.views[v].block.value, c.tip) && Held(c, c.views[v].block.value)
  {
    SweepIsReady(c, q, v);
    var h := c.views[v].block.value;
    var t := Canonical(c, v);
    if Anchored(c, q, v) {
      WrittenBlocksAreLinked(c, q, v);
      PathAscends(c.tip, LedgerBlocks(c.views, CanonicalViews(c, v), 0, v), h);
    }
    if Extends(h, c.tip) {
      assert h != c.tip;
      HeldWalk(c, h.parent);
      HeldTarget(c, h);
      assert AllNotarized(c.views, CanonicalViews(c, v), 0) <==> AllNotarizedOn(c, t.members) && c.views[v].mNot.Some?;
    }
  }

  lemma {:induction false} HeldTarget(c: Chain, h: Hash)
    requires WellFormed(h) && h.Block? && Extends(h.parent, c.tip) && WellFormed(c.tip)
    ensures Held(c, h) <==> Held(c, h.parent) && FindParent(c.views, h).Some? && c.views[View(h)].mNot.Some?
  {
    ExtendsView(h.parent, c.tip);
    assert Extends(h, h);
    assert forall a :: Extends(h, a) <==> a == h || Extends(h.parent, a);
  }

  /** What consistency of the protocol provides. */
  ghost predicate Branched(c: Chain, q: nat) {
    Structured(c) && TipGone(c) && Settled(c) && OneBranch(c, q)
  }

  /** This replica holds what finalizing `v` needs. */
  ghost predicate HeldFor(c: Chain, q: nat, v: nat) {
    Sweeps(c, q, v) ==> Held(c, c.views[v].block.value)
  }

  /** On one branch, a finalization is anchored exactly if its ancestors are held. */
  lemma {:induction false} BranchIsAnchored(c: Chain, q: nat, v: nat)
    requires Branched(c, q)
    ensures Anchored(c, q, v) <==> HeldFor(c, q, v)
  {
    if Sweeps(c, q, v) {
      assert Voted(c, q, v);
      AnchoredExactly(c, q, v);
    }
  }

  lemma {:induction false} FinalizeKeepsBranch(c: Chain, q: nat, v: nat)
    requires Branched(c, q) && Anchored(c, q, v)
    requires v < c.current && Finalize(c, q, v).1.Finalized?
    ensures OneBranch(Finalize(c, q, v).0, q)
  {
    var c' := Finalize(c, q, v).0;
    AllOrNothing(c, q, v);
    TipAdvances(c, q, v);
    SweepIsReady(c, q, v);
    assert Voted(c, q, v);
    forall u | Voted(c', q, u)
      ensures v < u && Voted(c, q, u) && c'.views[u] == c.views[u]
    {
    }
  }

  lemma {:induction false} FinalizeIsBranched(c: Chain, q: nat, v: nat)
    requires Branched(c, q) && Anchored(c, q, v) && v < c.current && Finalize(c, q, v).1.Finalized?
    ensures Branched(Finalize(c, q, v).0, q)
  {
    FinalizeKeepsStructure(c, q, v);
    FinalizeKeepsSettled(c, q, v);
    FinalizeKeepsBranch(c, q, v);
  }

  /** The recovery list does not matter. */
  lemma {:induction false} UntouchedIsBranched(c: Chain, q: nat, c': Chain)
    requires Branched(c, q) && Untouched(c, c')
    ensures Branched(c', q)
  {
  }

  lemma {:induction false} RoundIsBranched(c: Chain, q: nat)
    requires Branched(c, q)
    requires OldestFrom(c, q, 0).Some? ==> Anchored(c, q, OldestFrom(c, q, 0).value)
    ensures Branched(Round(c, q).0, q)
  {
    if OldestFrom(c, q, 0).Some? {
      var v := OldestFrom(c, q, 0).value;
      AllOrNothing(c, q, v);
      if Finalize(c, q, v).1.Finalized? {
        FinalizeIsBranched(c, q, v);
      } else {
        UntouchedIsBranched(c, q, Finalize(c, q, v).0);
      }
    }
  }

  /** In each of at most `n` rounds, the replica holds what the round needs. */
  ghost predicate PassHeld(c: Chain, q: nat, n: nat)
    decreases n
  {
    n > 0 && OldestFrom(c, q, 0).Some? ==>
      && HeldFor(c, q, OldestFrom(c, q, 0).value)
      && (Round(c, q).1 ==> PassHeld(Round(c, q).0, q, n - 1))
  }

  /** Each of at most `n` rounds is anchored at the committed tip. */
  ghost predicate PassAnchored(c: Chain, q: nat, n: nat)
    decreases n
  {
    n > 0 && OldestFrom(c, q, 0).Some? ==>
      && Anchored(c, q, OldestFrom(c, q, 0).value)
      && (Round(c, q).1 ==> PassAnchored(Round(c, q).0, q, n - 1))
  }

  /** With the votes on one branch, the deferred loop is anchored throughout exactly if the
      ancestors of what it finalizes are held, and then it keeps the ledger one chain and
      every other invariant of the chain. */
  lemma {:induction false} DeferredPassIsSafe(c: Chain, q: nat, n: nat)
    requires Branched(c, q)
    ensures PassAnchored(c, q, n) <==> PassHeld(c, q, n)
    ensures PassHeld(c, q, n) ==> Branched(DeferredPass(c, q, n), q)
    decreases n
  {
    if n > 0 && OldestFrom(c, q, 0).Some? {
      var v := OldestFrom(c, q, 0).value;
      BranchIsAnchored(c, q, v);
      if Anchored(c, q, v) {
        RoundIsBranched(c, q);
        DeferredPassIsSafe(Round(c, q).0, q, n - 1);
      }
    }
  }

  // ---- All ancestors held ----

  lemma {:induction false} HeldLater(c: Chain, c': Chain, v: nat, h: Hash)
    requires Held(c, h) && View(c.tip) <= v && View(c'.tip) == v
    requires forall w :: w in c.views && v < w ==> w in c'.views && c'.views[w] == c.views[w]
    ensures Held(c', h)
  {
    forall a | Extends(h, a) && View(c'.tip) < View(a)
      ensures FindParent(c'.views, a).Some? && c'.views[View(a)].mNot.Some?
    {
      assert FindParent(c.views, a).Some?;
    }
  }

  lemma {:induction false} FinalizeKeepsHeld(c: Chain, q: nat, v: nat)
    requires Branched(c, q) && AncestorsHeld(c, q)
    requires v < c.current && Finalize(c, q, v).1.Finalized?
    ensures AncestorsHeld(Finalize(c, q, v).0, q)
  {
    var c' := Finalize(c, q, v).0;
    assert Sweeps(c, q, v) && Voted(c, q, v);
    BranchIsAnchored(c, q, v);
    AllOrNothing(c, q, v);
    TipAdvances(c, q, v);
    SweepIsReady(c, q, v);
    forall u | Voted(c', q, u)
      ensures Held(c', c'.views[u].block.value)
    {
      assert v < u && Voted(c, q, u) && c'.views[u] == c.views[u];
      HeldLater(c, c', v, c.views[u].block.value);
    }
  }

  lemma {:induction false} RoundKeepsHeld(c: Chain, q: nat)
    requires Branched(c, q) && AncestorsHeld(c, q)
    ensures AncestorsHeld(Round(c, q).0, q)
    ensures OldestFrom(c, q, 0).Some? ==> HeldFor(c, q, OldestFrom(c, q, 0).value)
  {
    if OldestFrom(c, q, 0).Some? {
      var v := OldestFrom(c, q, 0).value;
      assert Voted(c, q, v);
      BranchIsAnchored(c, q, v);
      AllOrNothing(c, q, v);
      if Finalize(c, q, v).1.Finalized? {
        FinalizeKeepsHeld(c, q, v);
      }
    }
  }

  /** It suffices that the ancestors of every block with N-F votes are held at the start. */
  lemma {:induction false} HeldPass(c: Chain, q: nat, n: nat)
    requires Branched(c, q) && AncestorsHeld(c, q)
    ensures PassHeld(c, q, n)
    decreases n
  {
    if n > 0 && OldestFrom(c, q, 0).Some? {
      RoundKeepsHeld(c, q);
      BranchIsAnchored(c, q, OldestFrom(c, q, 0).value);
      RoundIsBranched(c, q);
      HeldPass(Round(c, q).0, q, n - 1);
    }
  }

  // ---- Termination ----

  /** A round keeps the structure, and if the loop goes on it has removed a view. */
  lemma {:induction false} RoundShrinks(c: Chain, q: nat)
    requires Good(c)
    ensures var (c1, more) := Round(c, q);
      |c.views| > 0 && Good(c1) && c1.views.Keys <= c.views.Keys && (more ==> |c1.views| < |c.views|)
  {
    assert c.current in c.views;
    if OldestFrom(c, q, 0).Some? {
      var v := OldestFrom(c, q, 0).value;
      var (c1, outcome) := Finalize(c, q, v);
      FinalizeKeepsStructure(c, q, v);
      FinalizeShrinks(c, q, v);
      if v !in c1.views {
        SmallerSet(c1.views.Keys, c.views.Keys);
      }
    }
  }

  /** Steps from kept chains lead to kept chains, and to smaller ones if they ask for more. */
  ghost predicate Shrinks(step: Chain -> (Chain, bool), kept: Chain -> bool, size: Chain -> nat) {
    forall x :: kept(x) ==> size(x) > 0 && kept(step(x).0) && (step(x).1 ==> size(step(x).0) < size(x))
  }

  /** Such a loop takes no more steps than the size: one more changes nothing. */
  lemma {:induction false} RepeatStable(
    step: Chain -> (Chain, bool), kept: Chain -> bool, size: Chain -> nat, c: Chain, n: nat)
    requires kept(c) && n >= size(c) && Shrinks(step, kept, size)
    ensures Repeat(step, c, n + 1) == Repeat(step, c, n)
    decreases n
  {
    if step(c).1 {
      RepeatStable(step, kept, size, step(c).0, n - 1);
    }
  }

  lemma {:induction false} RepeatBounded(
    step: Chain -> (Chain, bool), kept: Chain -> bool, size: Chain -> nat, c: Chain, n: nat)
    requires kept(c) && n >= size(c) && Shrinks(step, kept, size)
    ensures Repeat(step, c, n) == Repeat(step, c, size(c))
    decreases n
  {
    if n > size(c) {
      RepeatStable(step, kept, size, c, n - 1);
      RepeatBounded(step, kept, size, c, n - 1);
    }
  }

  ghost function GoodChains(): Chain -> bool {
    (c: Chain) => Good(c)
  }

  function ViewCount(): Chain -> nat {
    (c: Chain) => |c.views|
  }

  lemma {:induction false} RoundsShrink(q: nat)
    ensures Shrinks(Rounds(q), GoodChains(), ViewCount())
  {
    forall c | GoodChains()(c)
      ensures ViewCount()(c) > 0 && GoodChains()(Rounds(q)(c).0)
      ensures Rounds(q)(c).1 ==> ViewCount()(Rounds(q)(c).0) < ViewCount()(c)
    {
      RoundShrinks(c, q);
    }
  }

  /** The loop never takes more rounds than there are views. */
  lemma {:induction false} PassTerminates(c: Chain, q: nat, n: nat)
    requires Good(c) && n >= |c.views|
    ensures DeferredPass(c, q, n) == DeferredPass(c, q, |c.views|)
  {
    RoundsShrink(q);
    RepeatBounded(Rounds(q), GoodChains(), ViewCount(), c, n);
  }

  lemma {:induction false} SmallerSet(a: set<nat>, b: set<nat>)
    requires a < b
    ensures |a| < |b|
  {
    assert b == a + (b - a);
    assert b - a != {};
  }

  // ---- From global consistency ----

  /** The votes a replica holds are votes that were sent. */
  ghost predicate VotesWereSent(c: Chain, conf: Protocol.Config, ms: set<Protocol.Msg>) {
    forall u :: u in c.views && |c.views[u].votes| >= conf.n - conf.f && c.views[u].block.Some? ==>
      Protocol.LNotarized(conf, ms, c.views[u].block.value)
  }

  ghost predicate TipFinal(c: Chain, conf: Protocol.Config, ms: set<Protocol.Msg>) {
    c.tip.Genesis? || Protocol.LNotarized(conf, ms, c.tip)
  }

  /** A block with N-F votes that this replica has not passed descends from its tip. */
  lemma {:induction false} VotedExtendsTip(c: Chain, q: nat, conf: Protocol.Config, run: Protocol.Run, i: nat, u: nat)
    requires Protocol.ValidConfig(conf) && conf.n >= 3 * conf.f + 1 && q == conf.n - conf.f
    requires Protocol.IsRun(conf, run) && i < |run.states|
    requires VotesWereSent(c, conf, run.states[i]) && TipFinal(c, conf, run.states[i])
    requires Structured(c) && Settled(c) && Voted(c, q, u)
    ensures Extends(c.views[u].block.value, c.tip)
  {
    var h := c.views[u].block.value;
    assert CtxOk(u, c.views[u]);
    if c.tip.Genesis? {
      ExtendsGenesis(h);
    } else {
      Protocol.Consistency(conf, run, i, h, c.tip);
      if Extends(c.tip, h) {
        ExtendsView(c.tip, h);
      }
    }
  }

  /** Consistency of the protocol puts the blocks with N-F votes that this replica
      holds on one branch with its tip. */
  lemma {:induction false} ConsistencyGivesOneBranch(c: Chain, q: nat, conf: Protocol.Config, run: Protocol.Run, i: nat)
    requires Protocol.ValidConfig(conf) && conf.n >= 3 * conf.f + 1 && q == conf.n - conf.f
    requires Protocol.IsRun(conf, run) && i < |run.states|
    requires VotesWereSent(c, conf, run.states[i]) && TipFinal(c, conf, run.states[i])
    requires Structured(c) && Settled(c)
    ensures OneBranch(c, q)
  {
    forall u | Voted(c, q, u)
      ensures Extends(c.views[u].block.value, c.tip)
    {
      VotedExtendsTip(c, q, conf, run, i, u);
    }
    forall u, w | Voted(c, q, u) && Voted(c, q, w) && u <= w
      ensures Extends(c.views[w].block.value, c.views[u].block.value)
    {
      var g, h := c.views[u].block.value, c.views[w].block.value;
      Protocol.Consistency(conf, run, i, g, h);
      if Extends(g, h) {
        ExtendsView(g, h);
      }
    }
  }
}
