/** What one call of `finalize_with_l_notarization` does to the whole state. */
module Finalization {
  import opened Wrappers
  import opened Blocks
  import opened ChainState

  // ---- The backward walk ----

  /** The walk visits views that hold their block, in views up to that of `h`. */
  lemma {:induction false} WalkMembers(views: Views, h: Hash)
    requires ViewsOk(views) && WellFormed(h)
    ensures var t := Walk(views, h);
      && (forall u :: u in t.members ==> u in views && u <= View(h) && views[u].blockHash.Some?)
      && (t.missing.None? ==> forall u :: u in t.members ==> views[u].block.Some?)
      && (t.missing.Some? ==>
            var (u, g) := t.missing.value;
            u in t.members && views[u].block.None? && views[u].blockHash == Some(g))
  {
    if h.Block? && FindParent(views, h).Some? && views[View(h)].block.Some? {
      WalkMembers(views, h.parent);
    }
  }

  // ---- Paths of blocks ----

  /** `blocks` leads from `from` to `to`, each block naming the one before it. */
  predicate IsPath(from: Hash, blocks: seq<Block>, to: Hash)
    decreases |blocks|
  {
    if blocks == [] then from == to
    else blocks[0].Block? && blocks[0].parent == from && IsPath(blocks[0], blocks[1..], to)
  }

  lemma {:induction false} PathConcat(a: Hash, s: seq<Block>, b: Hash, t: seq<Block>, c: Hash)
    requires IsPath(a, s, b)
    ensures IsPath(a, s + t, c) <==> IsPath(b, t, c)
    decreases |s|
  {
    if s == [] {
      assert s + t == t;
    } else {
      PathConcat(s[0], s[1..], b, t, c);
      assert (s + t)[1..] == s[1..] + t;
    }
  }

  /** Views strictly increase along a path of well-formed blocks. */
  lemma {:induction false} PathAscends(a: Hash, s: seq<Block>, b: Hash)
    requires IsPath(a, s, b) && WellFormed(b)
    ensures WellFormed(a) && View(a) <= View(b) && Extends(b, a)
    ensures s != [] ==> View(a) < View(b)
    ensures forall i :: 0 <= i < |s| ==> View(a) < View(s[i]) && WellFormed(s[i]) && Extends(b, s[i])
    ensures forall i, j :: 0 <= i < j < |s| ==> View(s[i]) < View(s[j])
    decreases |s|
  {
    if s != [] {
      PathAscends(s[0], s[1..], b);
      assert Extends(s[0], a);
      ExtendsTransitive(b, s[0], a);
    }
  }

  // ---- The blocks a sweep writes ----

  /** The blocks of the given views from `k` to `v`, in ascending order. */
  function LedgerBlocks(views: Views, members: set<nat>, k: nat, v: nat): seq<Block>
    decreases v + 1 - k
  {
    if k > v then []
    else
      (if k in members && k in views && views[k].block.Some? then [views[k].block.value] else []) +
      LedgerBlocks(views, members, k + 1, v)
  }

  lemma {:induction false} LedgerBlocksEmpty(views: Views, members: set<nat>, k: nat, v: nat)
    requires forall u :: u in members ==> u < k
    ensures LedgerBlocks(views, members, k, v) == []
    decreases v + 1 - k
  {
    if k <= v {
      LedgerBlocksEmpty(views, members, k + 1, v);
    }
  }

  lemma {:induction false} LedgerBlocksAppend(views: Views, members: set<nat>, m: nat, u: nat, k: nat)
    requires m < u && u in views && views[u].block.Some? && k <= u
    requires forall w :: w in members ==> w <= m
    ensures LedgerBlocks(views, members + {u}, k, u) == LedgerBlocks(views, members, k, m) + [views[u].block.value]
    decreases u - k
  {
    if k == u {
      LedgerBlocksEmpty(views, members + {u}, u + 1, u);
      LedgerBlocksEmpty(views, members, u, m);
    } else {
      LedgerBlocksAppend(views, members, m, u, k + 1);
      if k > m {
        LedgerBlocksEmpty(views, members, k, m);
        LedgerBlocksEmpty(views, members, k + 1, m);
      }
    }
  }

  lemma {:induction false} LedgerBlocksFrame(views: Views, views': Views, members: set<nat>, k: nat, v: nat)
    requires forall u :: k <= u <= v && u in members ==> (u in views <==> u in views')
    requires forall u :: k <= u <= v && u in members && u in views && u in views' ==> views[u] == views'[u]
    ensures LedgerBlocks(views, members, k, v) == LedgerBlocks(views', members, k, v)
    decreases v + 1 - k
  {
    if k <= v {
      LedgerBlocksFrame(views, views', members, k + 1, v);
    }
  }

  /** The blocks on the walk, in ascending view order, lead from its bottom to `h`. */
  lemma {:induction false} WalkIsPath(views: Views, h: Hash)
    requires ViewsOk(views) && WellFormed(h) && Walk(views, h).missing.None?
    ensures var t := Walk(views, h);
      IsPath(t.bottom, LedgerBlocks(views, t.members, 0, View(h)), h)
  {
    var t := Walk(views, h);
    if h.Genesis? || FindParent(views, h).None? {
      LedgerBlocksEmpty(views, {}, 0, View(h));
    } else {
      var parent := h.parent;
      var t' := Walk(views, parent);
      WalkIsPath(views, parent);
      WalkMembers(views, parent);
      LedgerBlocksAppend(views, t'.members, View(parent), View(h), 0);
      PathConcat(t.bottom, LedgerBlocks(views, t'.members, 0, View(parent)), parent, [h], h);
    }
  }

  // ---- The sweep ----

  /** The views to be written from `k` on are all there, with their blocks. */
  ghost predicate Ready(views: Views, canonical: set<nat>, target: nat, k: nat) {
    && target in canonical
    && forall u :: u in canonical ==>
         u <= target && (k <= u ==> u in views && views[u].block.Some? && views[u].blockHash == views[u].block)
  }

  ghost predicate AllNotarized(views: Views, members: set<nat>, k: nat) {
    forall u :: u in members && u in views && k <= u ==> views[u].mNot.Some?
  }

  /** An off-chain view that stays: M-notarized, not nullified, its block missing. */
  predicate Kept(views: Views, canonical: set<nat>, u: nat) {
    u in views && u !in canonical && Retained(views[u], false)
  }

  /** An off-chain view that is stored as nullified. */
  predicate Dropped(views: Views, canonical: set<nat>, u: nat) {
    u in views && u !in canonical && !Retained(views[u], false)
  }

  lemma {:induction false} SweepStep(c: Chain, q: nat, canonical: set<nat>, target: nat, k: nat)
    requires Ready(c.views, canonical, target, k) && k <= target
    ensures var (c1, ok) := SweepOne(c, q, canonical, target, k);
      && ok == (k in canonical ==> c.views[k].mNot.Some?)
      && c1.views == (if Kept(c.views, canonical, k) then c.views else c.views - {k})
      && c1.ledger == c.ledger + (if k in canonical then [c.views[k].block.value] else [])
      && c1.tip == (if k in canonical then c.views[k].block.value else c.tip)
      && c1.nullified == c.nullified + (if Dropped(c.views, canonical, k) then {k} else {})
      && c1.current == c.current && c1.recovery == c.recovery
  {
    if k !in c.views {
      assert c.views - {k} == c.views;
    }
  }

  /** The views that a sweep from `k` leaves in the map. */
  function Remaining(views: Views, canonical: set<nat>, target: nat, k: nat): Views {
    map u | u in views && (u < k || target < u || Kept(views, canonical, u)) :: views[u]
  }

  /** The views that a sweep from `k` stores as nullified. */
  function DroppedViews(views: Views, canonical: set<nat>, target: nat, k: nat): set<nat> {
    set u | u in views && k <= u <= target && Dropped(views, canonical, u)
  }

  lemma {:induction false} FatesStep(views: Views, views1: Views, canonical: set<nat>, target: nat, k: nat)
    requires Ready(views, canonical, target, k) && k <= target
    requires views1 == if Kept(views, canonical, k) then views else views - {k}
    ensures Remaining(views1, canonical, target, k + 1) == Remaining(views, canonical, target, k)
    ensures DroppedViews(views, canonical, target, k) ==
      DroppedViews(views1, canonical, target, k + 1) + (if Dropped(views, canonical, k) then {k} else {})
    ensures LedgerBlocks(views, canonical, k, target) ==
      (if k in canonical then [views[k].block.value] else []) + LedgerBlocks(views1, canonical, k + 1, target)
    ensures Ready(views1, canonical, target, k + 1)
  {
    LedgerBlocksFrame(views, views1, canonical, k + 1, target);
  }

  /** Without an unnotarized canonical view the sweep runs to its end and leaves in the
      map only later views and those it keeps. */
  lemma {:induction false} SweepCompletes(c: Chain, q: nat, canonical: set<nat>, target: nat, k: nat)
    requires Ready(c.views, canonical, target, k) && k <= target + 1
    requires AllNotarized(c.views, canonical, k)
    ensures var (c1, ok) := Sweep(c, q, canonical, target, k);
      && ok
      && c1.views == Remaining(c.views, canonical, target, k)
      && (k <= target ==> c1.tip == c.views[target].block.value)
      && c1.current == c.current && c1.recovery == c.recovery
    decreases target + 1 - k
  {
    if k <= target {
      var (c1, ok) := SweepOne(c, q, canonical, target, k);
      SweepStep(c, q, canonical, target, k);
      FatesStep(c.views, c1.views, canonical, target, k);
      SweepCompletes(c1, q, canonical, target, k + 1);
    }
  }

  /** It writes the canonical blocks in ascending order. */
  lemma {:induction false} SweepWritesBlocks(c: Chain, q: nat, canonical: set<nat>, target: nat, k: nat)
    requires Ready(c.views, canonical, target, k) && k <= target + 1
    requires AllNotarized(c.views, canonical, k)
    ensures Sweep(c, q, canonical, target, k).0.ledger == c.ledger + LedgerBlocks(c.views, canonical, k, target)
    decreases target + 1 - k
  {
    if k <= target {
      var (c1, ok) := SweepOne(c, q, canonical, target, k);
      SweepStep(c, q, canonical, target, k);
      FatesStep(c.views, c1.views, canonical, target, k);
      SweepWritesBlocks(c1, q, canonical, target, k + 1);
      Regroup(c.ledger, if k in canonical then [c.views[k].block.value] else [],
              LedgerBlocks(c1.views, canonical, k + 1, target));
    }
  }

  lemma {:induction false} Regroup(a: seq<Block>, b: seq<Block>, c: seq<Block>)
    ensures (a + b) + c == a + (b + c)
  {
  }

  /** It stores the off-chain views that it removes as nullified. */
  lemma {:induction false} SweepStoresNullified(c: Chain, q: nat, canonical: set<nat>, target: nat, k: nat)
    requires Ready(c.views, canonical, target, k) && k <= target + 1
    requires AllNotarized(c.views, canonical, k)
    ensures Sweep(c, q, canonical, target, k).0.nullified == c.nullified + DroppedViews(c.views, canonical, target, k)
    decreases target + 1 - k
  {
    if k <= target {
      var (c1, ok) := SweepOne(c, q, canonical, target, k);
      SweepStep(c, q, canonical, target, k);
      FatesStep(c.views, c1.views, canonical, target, k);
      SweepStoresNullified(c1, q, canonical, target, k + 1);
    }
  }

  /** An unnotarized canonical view below the target stops the sweep after views have
      been removed and before the target is reached. */
  lemma {:induction false} SweepStops(c: Chain, q: nat, canonical: set<nat>, target: nat, k: nat)
    requires Ready(c.views, canonical, target, k) && k <= target
    requires !AllNotarized(c.views, canonical, k) && c.views[target].mNot.Some?
    ensures var (c1, ok) := Sweep(c, q, canonical, target, k);
      && !ok && target in c1.views && c1.views.Keys < c.views.Keys
    decreases target + 1 - k
  {
    var (c1, ok) := SweepOne(c, q, canonical, target, k);
    SweepStep(c, q, canonical, target, k);
    if ok {
      assert !AllNotarized(c1.views, canonical, k + 1) by {
        var u :| u in canonical && u in c.views && k <= u && c.views[u].mNot.None?;
        assert u in c1.views && c1.views[u] == c.views[u];
      }
      SweepStops(c1, q, canonical, target, k + 1);
    }
  }

  // ---- Finalization as a whole ----

  /** The checks pass and no block is missing on the walk, so the sweep starts. */
  predicate Sweeps(c: Chain, q: nat, v: nat) {
    CheckFinalize(c, q, v).Finalized? && Canonical(c, v).missing.None?
  }

  function CanonicalViews(c: Chain, v: nat): set<nat>
    requires v in c.views && c.views[v].block.Some? && c.views[v].block.value.Block?
  {
    Canonical(c, v).members + {v}
  }

  lemma {:induction false} SweepIsReady(c: Chain, q: nat, v: nat)
    requires ViewsOk(c.views) && Sweeps(c, q, v)
    ensures Ready(c.views, CanonicalViews(c, v), v, 0)
    ensures c.views[v].blockHash == Some(c.views[v].block.value) && WellFormed(c.views[v].block.value)
  {
    WalkMembers(c.views, c.views[v].block.value.parent);
  }

  /** Every present view up to the target has met exactly one fate, later views are
      untouched, and the tip is the target's hash. */
  ghost predicate AllFates(c: Chain, v: nat, c': Chain)
    requires v in c.views && c.views[v].block.Some? && c.views[v].block.value.Block?
  {
    var canonical := CanonicalViews(c, v);
    && c'.views == Remaining(c.views, canonical, v, 0)
    && c'.ledger == c.ledger + LedgerBlocks(c.views, canonical, 0, v)
    && c'.nullified == c.nullified + DroppedViews(c.views, canonical, v, 0)
    && c'.tip == c.views[v].block.value
    && c'.current == c.current
  }

  ghost predicate Untouched(c: Chain, c': Chain) {
    c' == c.(recovery := c'.recovery)
  }

  /** Finalization is all or nothing exactly when every view on the walk that reaches
      the sweep is M-notarized. */
  lemma {:induction false} AllOrNothing(c: Chain, q: nat, v: nat)
    requires Structured(c) && v != c.current
    ensures var (c', outcome) := Finalize(c, q, v);
      && (outcome.Rejected? || outcome.Deferred? ==> Untouched(c, c'))
      && (outcome.Finalized? || outcome.Failed? <==> Sweeps(c, q, v))
      && (outcome.Finalized? ==> AllFates(c, v, c'))
      && (outcome.Failed? ==> !Untouched(c, c') && !AllFates(c, v, c'))
      && (Sweeps(c, q, v) ==> (outcome.Finalized? <==> AllNotarized(c.views, CanonicalViews(c, v), 0)))
  {
    if Sweeps(c, q, v) {
      SweepIsReady(c, q, v);
      var c0 := c.(recovery := []);
      if AllNotarized(c.views, CanonicalViews(c, v), 0) {
        SweepCompletes(c0, q, CanonicalViews(c, v), v, 0);
        SweepWritesBlocks(c0, q, CanonicalViews(c, v), v, 0);
        SweepStoresNullified(c0, q, CanonicalViews(c, v), v, 0);
      } else {
        SweepStops(c0, q, CanonicalViews(c, v), v, 0);
      }
    }
  }

  /** The blocks of one finalization lead from the bottom of the walk to the target. */
  lemma {:induction false} WrittenBlocksAreLinked(c: Chain, q: nat, v: nat)
    requires ViewsOk(c.views) && Sweeps(c, q, v)
    ensures var blocks := LedgerBlocks(c.views, CanonicalViews(c, v), 0, v);
      blocks != [] && IsPath(Canonical(c, v).bottom, blocks, c.views[v].block.value)
  {
    var h := c.views[v].block.value;
    SweepIsReady(c, q, v);
    var t := Canonical(c, v);
    WalkIsPath(c.views, h.parent);
    WalkMembers(c.views, h.parent);
    LedgerBlocksAppend(c.views, t.members, View(h.parent), v, 0);
    PathConcat(t.bottom, LedgerBlocks(c.views, t.members, 0, View(h.parent)), h.parent, [h], h);
  }

  /** A finalization extends a ledger that is one chain to a longer one exactly when
      the walk bottoms out at the committed tip. */
  lemma {:induction false} LedgerStaysOneChain(c: Chain, q: nat, v: nat)
    requires Structured(c) && v != c.current
    requires Finalize(c, q, v).1.Finalized? && IsPath(Genesis, c.ledger, c.tip)
    ensures var c' := Finalize(c, q, v).0;
      IsPath(Genesis, c'.ledger, c'.tip) <==> Canonical(c, v).bottom == c.tip
  {
    AllOrNothing(c, q, v);
    WrittenBlocksAreLinked(c, q, v);
    var blocks := LedgerBlocks(c.views, CanonicalViews(c, v), 0, v);
    PathConcat(Genesis, c.ledger, c.tip, blocks, c.views[v].block.value);
  }

  // ---- State diffs ----

  /** The pending diffs that are not dropped from view `k` on. */
  function Surviving(c: Chain, canonical: set<nat>, target: nat, k: nat): map<nat, Diff> {
    map u | u in c.pending && !(k <= u <= target && Dropped(c.views, canonical, u)) :: c.pending[u]
  }

  lemma {:induction false} AscendingSplit(p: map<nat, Diff>, lo: nat, mid: nat, hi: nat)
    requires lo <= mid + 1 && mid <= hi
    ensures Ascending(p, lo, hi) == Ascending(p, lo, mid) + Ascending(p, mid + 1, hi)
    decreases mid + 1 - lo
  {
    if lo <= mid {
      AscendingSplit(p, lo + 1, mid, hi);
    }
  }

  lemma {:induction false} AscendingFrame(p: map<nat, Diff>, p': map<nat, Diff>, lo: nat, hi: nat)
    requires forall u :: lo <= u <= hi ==> (u in p <==> u in p')
    requires forall u :: lo <= u <= hi && u in p && u in p' ==> p[u] == p'[u]
    ensures Ascending(p, lo, hi) == Ascending(p', lo, hi)
    decreases hi + 1 - lo
  {
    if lo <= hi {
      AscendingFrame(p, p', lo + 1, hi);
    }
  }

  lemma {:induction false} AscendingEmpty(p: map<nat, Diff>, lo: nat, hi: nat)
    requires forall u :: lo <= u <= hi ==> u !in p
    ensures Ascending(p, lo, hi) == []
    decreases hi + 1 - lo
  {
    if lo <= hi {
      AscendingEmpty(p, lo + 1, hi);
    }
  }

  /** Applying the diffs up to `v` now or later comes to the same. */
  lemma {:induction false} FinalizeUpToKeepsOrder(c: Chain, v: nat, target: nat)
    requires v <= target
    ensures var c1 := FinalizeUpTo(c, v);
      c1.applied + Ascending(c1.pending, 0, target) == c.applied + Ascending(c.pending, 0, target)
  {
    var c1 := FinalizeUpTo(c, v);
    AscendingSplit(c.pending, 0, v, target);
    AscendingSplit(c1.pending, 0, v, target);
    AscendingEmpty(c1.pending, 0, v);
    AscendingFrame(c.pending, c1.pending, v + 1, target);
  }

  lemma {:induction false} DropOneDiff(c: Chain, canonical: set<nat>, target: nat, k: nat, c1: Chain)
    requires k <= target
    requires c1.views == if Kept(c.views, canonical, k) then c.views else c.views - {k}
    requires c1.pending == if Dropped(c.views, canonical, k) then c.pending - {k} else c.pending
    ensures Surviving(c1, canonical, target, k + 1) == Surviving(c, canonical, target, k)
  {
  }

  lemma {:induction false} FlushDiffs(c: Chain, canonical: set<nat>, target: nat, k: nat, c1: Chain)
    requires k <= target && k in canonical
    requires c1.views == c.views - {k} && c1.pending == After(c.pending, k)
    requires c1.applied == c.applied + Ascending(c.pending, 0, k)
    ensures c1.applied + Ascending(Surviving(c1, canonical, target, k + 1), 0, target) ==
            c.applied + Ascending(Surviving(c, canonical, target, k), 0, target)
  {
    var s := Surviving(c, canonical, target, k);
    assert Surviving(c1, canonical, target, k + 1) == After(s, k);
    AscendingFrame(c.pending, s, 0, k);
    FinalizeUpToKeepsOrder(c.(pending := s), k, target);
  }

  lemma {:induction false} SweepOneDiffs(c: Chain, q: nat, canonical: set<nat>, target: nat, k: nat)
    requires Ready(c.views, canonical, target, k) && k <= target
    ensures var c1 := SweepOne(c, q, canonical, target, k).0;
      c1.applied + Ascending(Surviving(c1, canonical, target, k + 1), 0, target) ==
      c.applied + Ascending(Surviving(c, canonical, target, k), 0, target)
  {
    var c1 := SweepOne(c, q, canonical, target, k).0;
    SweepStep(c, q, canonical, target, k);
    if k in canonical && (k == target || |c.views[k].votes| >= q) {
      FlushDiffs(c, canonical, target, k, c1);
    } else {
      DropOneDiff(c, canonical, target, k, c1);
    }
  }

  lemma {:induction false} SweepOnePending(c: Chain, q: nat, canonical: set<nat>, target: nat, k: nat)
    requires Ready(c.views, canonical, target, k) && k <= target
    ensures var c1 := SweepOne(c, q, canonical, target, k).0;
      && After(c1.pending, target) == After(c.pending, target)
      && (k == target ==> c1.pending == After(c.pending, target))
      && (k == target ==> c1.lastFinal == if target > c.lastFinal then target else c.lastFinal)
      && (k < target && target > c.lastFinal ==> target > c1.lastFinal)
      && (k < target && target <= c.lastFinal ==> c1.lastFinal == c.lastFinal)
  {
  }

  /** The diffs the sweep applies, in ascending order: all those of views up to the
      target except the dropped ones. */
  lemma {:induction false} SweepDiffs(c: Chain, q: nat, canonical: set<nat>, target: nat, k: nat)
    requires Ready(c.views, canonical, target, k) && k <= target
    requires AllNotarized(c.views, canonical, k)
    ensures var c1 := Sweep(c, q, canonical, target, k).0;
      && c1.applied == c.applied + Ascending(Surviving(c, canonical, target, k), 0, target)
      && c1.pending == After(c.pending, target)
      && c1.lastFinal == if target > c.lastFinal then target else c.lastFinal
    decreases target + 1 - k
  {
    var (c1, ok) := SweepOne(c, q, canonical, target, k);
    SweepStep(c, q, canonical, target, k);
    SweepOneDiffs(c, q, canonical, target, k);
    SweepOnePending(c, q, canonical, target, k);
    if k == target {
      AscendingEmpty(Surviving(c1, canonical, target, k + 1), 0, target);
    } else {
      SweepDiffs(c1, q, canonical, target, k + 1);
    }
  }

  ghost predicate Applies(written: seq<(nat, Diff)>, u: nat) {
    exists i :: 0 <= i < |written| && written[i].0 == u
  }

  lemma {:induction false} AscendingApplies(p: map<nat, Diff>, lo: nat, hi: nat, u: nat)
    ensures Applies(Ascending(p, lo, hi), u) <==> lo <= u <= hi && u in p
    decreases hi + 1 - lo
  {
    if lo <= hi {
      AscendingApplies(p, lo + 1, hi, u);
      var head := if lo in p then [(lo, p[lo])] else [];
      var rest := Ascending(p, lo + 1, hi);
      if Applies(rest, u) {
        var i :| 0 <= i < |rest| && rest[i].0 == u;
        assert (head + rest)[|head| + i].0 == u;
      }
      if lo in p && u == lo {
        assert (head + rest)[0].0 == u;
      }
      if Applies(head + rest, u) && !(lo in p && u == lo) {
        var i :| 0 <= i < |head + rest| && (head + rest)[i].0 == u;
        assert rest[i - |head|].0 == u;
      }
    }
  }

  /** No state of a dead fork is committed: provided pending diffs belong to views in
      the map, a finalization applies only diffs of canonical views exactly when no
      view it keeps has a pending diff. */
  lemma {:induction false} OnlyCanonicalDiffsApplied(c: Chain, q: nat, v: nat)
    requires Structured(c) && v != c.current && Finalize(c, q, v).1.Finalized?
    requires c.pending.Keys <= c.views.Keys
    ensures var canonical, c' := CanonicalViews(c, v), Finalize(c, q, v).0;
      && c.applied <= c'.applied
      && c'.pending == After(c.pending, v) && c'.pending.Keys <= c'.views.Keys
      && ((forall u :: Applies(c'.applied[|c.applied|..], u) ==> u in canonical) <==>
          (forall u :: u in c.pending && u <= v ==> !Kept(c.views, canonical, u)))
  {
    var canonical, c' := CanonicalViews(c, v), Finalize(c, q, v).0;
    AllOrNothing(c, q, v);
    SweepIsReady(c, q, v);
    SweepDiffs(c.(recovery := []), q, canonical, v, 0);
    var s := Surviving(c, canonical, v, 0);
    var written := Ascending(s, 0, v);
    assert c'.applied[|c.applied|..] == written;
    forall u: nat
      ensures Applies(written, u) <==> u <= v && u in c.pending && !Dropped(c.views, canonical, u)
    {
      AscendingApplies(s, 0, v, u);
    }
  }
}
