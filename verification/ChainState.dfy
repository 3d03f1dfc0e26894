/** The state of a replica's chain of non-finalized views, and what its operations
    compute. The class `ViewChains.ViewChain` is proved against these functions. */
module ChainState {
  import opened Wrappers
  import opened Blocks

  type PeerId = nat

  /** The state changes that executing a block makes. */
  datatype Diff = Diff(block: Block, changes: nat)

  /** The state a replica keeps for one view. */
  datatype Ctx = Ctx(
    parentHash: Hash,
    block: Option<Block>,
    blockHash: Option<Hash>,
    pendingBlock: Option<Block>,
    stateDiff: Option<Diff>,
    votes: set<PeerId>,
    mNot: Option<Hash>,
    nullification: bool,
    hasNullified: bool,
    hasVoted: bool,
    conflictingVotes: nat,
    nullifies: set<PeerId>)

  function NewCtx(parentHash: Hash): Ctx {
    Ctx(parentHash, None, None, None, None, {}, None, false, false, false, 0, {})
  }

  predicate IsNullified(ctx: Ctx) {
    ctx.nullification || ctx.hasNullified
  }

  type Views = map<nat, Ctx>

  /** `pending` and `lastFinal` belong to the pending-state writer; `ledger`,
      `applied` and `nullified` record what has been written to storage: the
      finalized blocks, the state diffs, and the views stored as nullified. */
  datatype Chain = Chain(
    current: nat,
    views: Views,
    tip: Hash,
    recovery: seq<(nat, Hash)>,
    pending: map<nat, Diff>,
    lastFinal: nat,
    ledger: seq<Block>,
    applied: seq<(nat, Diff)>,
    nullified: set<nat>)

  // ---- Hypotheses and invariants on the map of views ----

  /** The parent of a view is earlier, its hash belongs to a block of that view, the
      block is the one hashed, and an M-notarization is for that hash. */
  predicate CtxOk(v: nat, ctx: Ctx) {
    && WellFormed(ctx.parentHash) && View(ctx.parentHash) < v
    && (ctx.blockHash.Some? ==>
          ctx.blockHash.value.Block? && View(ctx.blockHash.value) == v && WellFormed(ctx.blockHash.value))
    && (ctx.block.Some? ==> ctx.blockHash == ctx.block)
    && (ctx.mNot.Some? ==> ctx.blockHash == ctx.mNot)
  }

  ghost predicate ViewsOk(views: Views) {
    forall v :: v in views ==> CtxOk(v, views[v])
  }

  /** The shape of the chain in every run. */
  ghost predicate Structured(c: Chain) {
    && c.current in c.views
    && (forall v :: v in c.views ==> 1 <= v <= c.current)
    && (forall v :: v in c.views && v < c.current ==> c.views[v].mNot.Some? || IsNullified(c.views[v]))
    && ViewsOk(c.views)
  }

  // ---- Looking up a parent ----

  function FindParent(views: Views, h: Hash): Option<nat> {
    if View(h) in views && views[View(h)].blockHash == Some(h) then Some(View(h)) else None
  }

  /** No view strictly between `lo` and `hi` is left without a nullification. */
  predicate GapNullified(views: Views, lo: nat, hi: nat) {
    forall w :: w in views && lo < w < hi ==> IsNullified(views[w])
  }

  // ---- SelectParent ----

  predicate Selectable(views: Views, newView: nat, v: nat) {
    v in views && v < newView && views[v].mNot.Some? && !IsNullified(views[v])
  }

  /** The result is the M-notarized hash of the greatest selectable view, or the
      committed tip when there is none. */
  ghost predicate IsSelectedParent(c: Chain, newView: nat, h: Hash) {
    || (&& h == c.tip && forall v :: !Selectable(c.views, newView, v))
    || exists v ::
         && Selectable(c.views, newView, v) && h == c.views[v].mNot.value
         && forall w :: Selectable(c.views, newView, w) ==> w <= v
  }

  // ---- Proposals ----

  datatype ChainCheck = Accept | AwaitParent | Refuse

  /** The chain checks of `add_block_proposal`. */
  function CheckProposal(c: Chain, v: nat, block: Block): ChainCheck {
    if v !in c.views || c.views[v].block.Some? || c.views[v].pendingBlock.Some? || block.Genesis? then Refuse
    else
      match FindParent(c.views, block.parent)
      case Some(u) =>
        if c.views[u].nullification || !GapNullified(c.views, u, v) then Refuse
        else if c.views[u].mNot.None? then AwaitParent
        else Accept
      case None =>
        if block.parent != c.tip then Refuse else Accept
  }

  /** A view takes a block: unless it fails the view's own checks or contradicts an
      M-notarization, it becomes the view's block, with the votes for it that had
      arrived before it. Signature and leader checks are the parameter `authentic`. */
  function TakeBlock(ctx: Ctx, v: nat, block: Block, changes: nat, joined: set<PeerId>, authentic: bool): Ctx {
    if block.Genesis? || block.view != v || ctx.block.Some? || block.parent != ctx.parentHash || !authentic then ctx
    else if ctx.mNot.Some? && ctx.mNot.value != block then ctx
    else ctx.(blockHash := Some(block), block := Some(block), stateDiff := Some(Diff(block, changes)),
              votes := ctx.votes + joined)
  }

  function AddProposal(c: Chain, v: nat, block: Block, changes: nat, joined: set<PeerId>, authentic: bool): Chain {
    match CheckProposal(c, v, block)
    case Refuse => c
    case AwaitParent =>
      c.(views := c.views[v := c.views[v].(pendingBlock := Some(block), stateDiff := Some(Diff(block, changes)))])
    case Accept =>
      OnMNotarization(c.(views := c.views[v := TakeBlock(c.views[v], v, block, changes, joined, authentic)]), v)
  }

  /** A block delivered by recovery is stored if its hash is the one expected. */
  function AddRecovered(c: Chain, v: nat, block: Block): Chain {
    if v in c.views && c.views[v].block.None? && c.views[v].blockHash == Some(block)
    then c.(views := c.views[v := c.views[v].(block := Some(block))])
    else c
  }

  function StoreDiff(c: Chain, v: nat, d: Diff): Chain {
    if v !in c.views then c
    else
      var c1 := c.(views := c.views[v := c.views[v].(stateDiff := Some(d))]);
      if c.views[v].mNot.Some? && v < c.current then AddDiff(c1, v, d) else c1
  }

  // ---- Pending state ----

  function AddDiff(c: Chain, v: nat, d: Diff): Chain {
    if v > c.lastFinal then c.(pending := c.pending[v := d]) else c
  }

  function OnMNotarization(c: Chain, v: nat): Chain {
    if v in c.views && c.views[v].mNot.Some? && c.views[v].stateDiff.Some?
    then AddDiff(c, v, c.views[v].stateDiff.value) else c
  }

  function RemoveDiffs(c: Chain, lo: nat, hi: nat): Chain {
    c.(pending := map v | v in c.pending && !(lo <= v <= hi) :: c.pending[v])
  }

  /** The pending diffs of views `lo` to `hi`, in ascending order. */
  function Ascending(pending: map<nat, Diff>, lo: nat, hi: nat): seq<(nat, Diff)>
    decreases hi + 1 - lo
  {
    if lo > hi then []
    else (if lo in pending then [(lo, pending[lo])] else []) + Ascending(pending, lo + 1, hi)
  }

  function After(pending: map<nat, Diff>, v: nat): map<nat, Diff> {
    map u | u in pending && u > v :: pending[u]
  }

  function FinalizeUpTo(c: Chain, v: nat): Chain {
    c.(applied := c.applied + Ascending(c.pending, 0, v),
       pending := After(c.pending, v),
       lastFinal := if v > c.lastFinal then v else c.lastFinal)
  }

  // ---- Progression ----

  function Enter(c: Chain, parentHash: Hash): Chain {
    c.(current := c.current + 1, views := c.views[c.current + 1 := NewCtx(parentHash)])
  }

  // ---- Finalization ----

  datatype Outcome = Rejected | Deferred | Finalized | Failed

  /** The checks before the backward walk; `Finalized` means they all pass. */
  function CheckFinalize(c: Chain, q: nat, v: nat): Outcome {
    if v > c.current || v !in c.views || |c.views[v].votes| < q || IsNullified(c.views[v]) then Rejected
    else if c.views[v].block.None? || c.views[v].block.value.Genesis? then Deferred
    else
      var parent := c.views[v].block.value.parent;
      match FindParent(c.views, parent)
      case Some(u) =>
        if c.views[u].mNot.None? then Rejected
        else if c.views[u].block.None? then Deferred
        else if u >= v || !GapNullified(c.views, u, v) then Rejected
        else Finalized
      case None =>
        if parent != c.tip then Deferred else Finalized
  }

  /** What the backward walk over parent hashes finds: the views on it, the first
      hash that no view carries, and a view without its block, if it hit one. */
  datatype Trace = Trace(members: set<nat>, bottom: Hash, missing: Option<(nat, Hash)>)

  function Walk(views: Views, h: Hash): Trace {
    if h.Genesis? then Trace({}, h, None)
    else
      match FindParent(views, h)
      case None => Trace({}, h, None)
      case Some(u) =>
        if views[u].block.None? then Trace({u}, h, Some((u, h)))
        else
          var t := Walk(views, h.parent);
          t.(members := t.members + {u})
  }

  /** A view the sweep leaves in place, waiting for its block. */
  predicate Retained(ctx: Ctx, canonical: bool) {
    && ctx.mNot.Some? && ctx.blockHash.Some? && ctx.block.None?
    && (canonical || !IsNullified(ctx))
  }

  /** Storing a view on the canonical chain; the flag is false when storing stops
      with an error. */
  function PersistCanonical(c: Chain, q: nat, ctx: Ctx, v: nat, isTarget: bool): (Chain, bool) {
    if isTarget || (|ctx.votes| >= q && ctx.block.Some?) then
      var c1 := FinalizeUpTo(c, v);
      if ctx.block.None? then (c1, false)
      else (c1.(ledger := c1.ledger + [ctx.block.value]), ctx.mNot.Some?)
    else
      (if ctx.block.Some? then c.(ledger := c.ledger + [ctx.block.value]) else c, ctx.mNot.Some?)
  }

  function PersistNullified(c: Chain, v: nat): Chain {
    c.(pending := c.pending - {v}, nullified := c.nullified + {v})
  }

  /** What the sweep does with view `k`. */
  function SweepOne(c: Chain, q: nat, canonical: set<nat>, target: nat, k: nat): (Chain, bool) {
    if k !in c.views || (k != target && Retained(c.views[k], k in canonical)) then (c, true)
    else
      var ctx := c.views[k];
      var c1 := c.(views := c.views - {k});
      if k == target || k in canonical then
        PersistCanonical(if ctx.blockHash.Some? then c1.(tip := ctx.blockHash.value) else c1, q, ctx, k, k == target)
      else
        (PersistNullified(c1, k), true)
  }

  /** The ascending sweep from view `k` to the target; it stops at an error. */
  function Sweep(c: Chain, q: nat, canonical: set<nat>, target: nat, k: nat): (Chain, bool)
    decreases target + 1 - k
  {
    if k > target then (c, true)
    else
      var (c1, ok) := SweepOne(c, q, canonical, target, k);
      if ok then Sweep(c1, q, canonical, target, k + 1) else (c1, false)
  }

  function Canonical(c: Chain, v: nat): Trace
    requires v in c.views && c.views[v].block.Some? && c.views[v].block.value.Block?
  {
    Walk(c.views, c.views[v].block.value.parent)
  }

  function Finalize(c: Chain, q: nat, v: nat): (Chain, Outcome) {
    var check := CheckFinalize(c, q, v);
    if !check.Finalized? then (c, check)
    else
      var t := Canonical(c, v);
      if t.missing.Some? then (c.(recovery := [t.missing.value]), Deferred)
      else
        var (c1, ok) := Sweep(c.(recovery := []), q, t.members + {v}, v, 0);
        (c1, if ok then Finalized else Failed)
  }

  // ---- The finalizable-view search ----

  /** A view that `oldest_finalizable_view` accepts. */
  predicate Finalizable(c: Chain, q: nat, v: nat) {
    && v in c.views && v < c.current
    && |c.views[v].votes| >= q && c.views[v].block.Some? && c.views[v].block.value.Block? && !IsNullified(c.views[v])
    && var parent := c.views[v].block.value.parent;
       match FindParent(c.views, parent)
       case Some(u) =>
         c.views[u].mNot.Some? && c.views[u].block.Some? && GapNullified(c.views, u, v)
       case None => parent == c.tip
  }
}
