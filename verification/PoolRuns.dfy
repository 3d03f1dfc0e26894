/** What holds in every run of pool operations, and what adding a transaction means. */
module PoolRuns {
  import opened PoolState
  import opened PoolInvariants

  datatype Op =
    | Add(v: VTx, base: nat)
    | RemoveOne(h: TxHash)
    | RemoveFinalized(hs: seq<TxHash>)
    | SetNonce(s: Address, base: nat)
    | ClearAll

  ghost function Apply(p: Pool, op: Op): Pool {
    match op
    case Add(v, base) => TryAdd(p, v, base).0
    case RemoveOne(h) => Remove(p, h)
    case RemoveFinalized(hs) => RemoveAll(p, hs)
    case SetNonce(s, base) => UpdateNonce(p, s, base)
    case ClearAll => Clear(p)
  }

  ghost function After(capacity: nat, ops: seq<Op>): Pool {
    if ops == [] then Empty(capacity)
    else Apply(After(capacity, ops[..|ops| - 1]), ops[|ops| - 1])
  }

  lemma {:induction false} ApplyInv(p: Pool, op: Op)
    requires Inv(p)
    ensures Inv(Apply(p, op))
    ensures HeadsComplete(p) && !op.SetNonce? ==> HeadsComplete(Apply(p, op))
  {
    match op
    case Add(v, base) => TryAddInv(p, v, base);
    case RemoveOne(h) => RemoveInv(p, h);
    case RemoveFinalized(hs) => RemoveAllInv(p, hs);
    case SetNonce(s, base) => UpdateNonceInv(p, s, base);
    case ClearAll =>
  }

  /** After any operations whatever, the invariants hold. */
  lemma {:induction false} EveryRunKeepsInv(capacity: nat, ops: seq<Op>)
    ensures Inv(After(capacity, ops))
  {
    if ops != [] {
      EveryRunKeepsInv(capacity, ops[..|ops| - 1]);
      ApplyInv(After(capacity, ops[..|ops| - 1]), ops[|ops| - 1]);
    }
  }

  ghost function HashesOf(m: Index): set<TxHash> {
    set s, n | s in m && n in m[s] :: m[s][n]
  }

  lemma {:induction false} IndexedHashes(m: Index, byHash: map<TxHash, VTx>, h: TxHash)
    requires Backed(m, byHash) && h in HashesOf(m)
    ensures h in byHash && Holds(m, byHash[h].tx.sender, byHash[h].tx.nonce, h)
  {
    var s, n :| s in m && n in m[s] && m[s][n] == h;
    assert Holds(m, s, n, h);
  }

  lemma {:induction false} UnionOfIndexes(p: Pool)
    requires Agree(p)
    ensures p.byHash.Keys == HashesOf(p.pending) + HashesOf(p.queued)
    ensures HashesOf(p.pending) !! HashesOf(p.queued)
  {
    forall h | h in p.byHash
      ensures h in HashesOf(p.pending) || h in HashesOf(p.queued)
    {
      assert Filed(p, h);
    }
    forall h | h in HashesOf(p.pending)
      ensures h in p.byHash && h !in HashesOf(p.queued)
    {
      IndexedHashes(p.pending, p.byHash, h);
      if h in HashesOf(p.queued) {
        IndexedHashes(p.queued, p.byHash, h);
        assert false;
      }
    }
    forall h | h in HashesOf(p.queued)
      ensures h in p.byHash
    {
      IndexedHashes(p.queued, p.byHash, h);
    }
  }

  /** The hash table is always the disjoint union of the pending and the queued index. */
  lemma {:induction false} DisjointUnion(capacity: nat, ops: seq<Op>)
    ensures var p := After(capacity, ops);
      p.byHash.Keys == HashesOf(p.pending) + HashesOf(p.queued) && HashesOf(p.pending) !! HashesOf(p.queued)
  {
    EveryRunKeepsInv(capacity, ops);
    UnionOfIndexes(After(capacity, ops));
  }

  /** Without `clear`, the size is what was added less what was removed. */
  lemma {:induction false} SizeIsAddedLessRemoved(capacity: nat, ops: seq<Op>)
    requires ClearAll !in ops
    ensures var p := After(capacity, ops); |p.byHash| == p.added - p.removed
  {
    EveryRunKeepsInv(capacity, ops);
    NothingCleared(capacity, ops);
  }

  lemma {:induction false} NothingCleared(capacity: nat, ops: seq<Op>)
    requires ClearAll !in ops
    ensures After(capacity, ops).cleared == 0
  {
    if ops != [] {
      NothingCleared(capacity, ops[..|ops| - 1]);
      var p := After(capacity, ops[..|ops| - 1]);
      ApplyClears(p, ops[|ops| - 1]);
    }
  }

  lemma {:induction false} ApplyClears(p: Pool, op: Op)
    requires !op.ClearAll?
    ensures Apply(p, op).cleared == p.cleared
  {
    match op
    case Add(v, base) => AddClears(p, v, base);
    case RemoveOne(h) =>
    case RemoveFinalized(hs) => RemoveAllClears(p, hs);
    case SetNonce(s, base) =>
      if base > Expected(p, s) {
        PromoteClears(Moved(p, s, base), s);
      }
    case ClearAll =>
  }

  lemma {:induction false} RemoveAllClears(p: Pool, hs: seq<TxHash>)
    ensures RemoveAll(p, hs).cleared == p.cleared
    decreases |hs|
  {
    if hs != [] {
      RemoveAllClears(Remove(p, hs[0]), hs[1..]);
    }
  }

  lemma {:induction false} PromoteClears(p: Pool, s: Address)
    ensures Promote(p, s).cleared == p.cleared
    decreases QueuedCount(p, s)
  {
    if At(p.queued, s, Expected(p, s)) {
      PromoteClears(PromoteOne(p, s), s);
    }
  }

  lemma {:induction false} TrimClears(p: Pool, s: Address)
    ensures Trim(p, s).cleared == p.cleared
    decreases QueuedCount(p, s)
  {
    if QueuedCount(p, s) > MAX_QUEUED_PER_SENDER {
      var n := HighestOf(p.queued[s].Keys);
      TrimStep(p, s, n);
      TrimClears(DropQueued(p, s, n), s);
    }
  }

  lemma {:induction false} PlaceClears(p: Pool, v: VTx)
    ensures Place(p, v).0.cleared == p.cleared
  {
    PromoteClears(AddPending(p, v), v.tx.sender);
    TrimClears(AddQueued(p, v), v.tx.sender);
  }

  lemma {:induction false} EvictClears(p: Pool)
    ensures EvictLowest(p).cleared == p.cleared
  {
  }

  lemma {:induction false} AddNewClears(p: Pool, v: VTx)
    ensures AddNew(p, v).0.cleared == p.cleared
  {
    PlaceClears(p, v);
    EvictClears(p);
    PlaceClears(EvictLowest(p), v);
  }

  lemma {:induction false} VacatedClears(p: Pool, v: VTx)
    ensures Vacated(p, v).cleared == p.cleared && AddOld(p, v).0.cleared == p.cleared
  {
  }

  lemma {:induction false} AddClears(p: Pool, v: VTx, base: nat)
    ensures TryAdd(p, v, base).0.cleared == p.cleared
  {
    var p0 := Meet(p, v.tx.sender, base);
    VacatedClears(p0, v);
    AddNewClears(Vacated(p0, v), v);
  }

  lemma {:induction false} HeadsStayComplete(capacity: nat, ops: seq<Op>)
    requires forall op :: op in ops ==> !op.SetNonce?
    ensures HeadsComplete(After(capacity, ops))
  {
    if ops != [] {
      HeadsStayComplete(capacity, ops[..|ops| - 1]);
      EveryRunKeepsInv(capacity, ops[..|ops| - 1]);
      ApplyInv(After(capacity, ops[..|ops| - 1]), ops[|ops| - 1]);
    }
  }

  /** In runs without nonce updates, the fee index holds exactly one entry for each sender
      with pending transactions: that of its lowest pending nonce. */
  lemma {:induction false} HeadsExact(capacity: nat, ops: seq<Op>)
    requires forall op :: op in ops ==> !op.SetNonce?
    ensures var p := After(capacity, ops);
      && (forall hd :: hd in p.heads ==> IsHead(p, hd.sender, hd))
      && (forall s :: s in p.pending ==> exists hd :: hd in p.heads && IsHead(p, s, hd))
      && (forall a, b :: a in p.heads && b in p.heads && a.sender == b.sender ==> a == b)
  {
    var p := After(capacity, ops);
    EveryRunKeepsInv(capacity, ops);
    HeadsStayComplete(capacity, ops);
    forall s | s in p.pending
      ensures exists hd :: hd in p.heads && IsHead(p, s, hd)
    {
      assert HasHead(p, s);
    }
    forall a, b | a in p.heads && b in p.heads && a.sender == b.sender
      ensures a == b
    {
      HeadUnique(p, a.sender, a, b);
    }
  }
}
