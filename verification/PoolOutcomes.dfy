/** What the answer of an addition tells its caller, and when the pool keeps its limits. */
module PoolOutcomes {
  import opened FiniteSets
  import opened PoolState
  import opened PoolInvariants

  /** `p'` is `p` with the queued transactions of `s` from nonce `e` up to `e'` pending. */
  ghost predicate QueuedRunMoved(p: Pool, p': Pool, s: Address, e: nat, e': nat) {
    && (forall n :: e <= n < e' ==> At(p.queued, s, n))
    && (forall s', n: nat, h :: Holds(p'.queued, s', n, h) <==> Holds(p.queued, s', n, h) && !(s' == s && e <= n < e'))
  }

  ghost predicate PendingRunMoved(p: Pool, p': Pool, s: Address, e: nat, e': nat) {
    forall s', n: nat, h :: Holds(p'.pending, s', n, h) <==>
      if s' == s && e <= n < e' then Holds(p.queued, s', n, h) else Holds(p.pending, s', n, h)
  }

  lemma {:induction false} OneMoreMoved(p: Pool, p': Pool, s: Address, e': nat)
    requires At(p.queued, s, Expected(p, s)) && e' > Expected(p, s)
    requires QueuedRunMoved(PromoteOne(p, s), p', s, Expected(p, s) + 1, e')
    ensures QueuedRunMoved(p, p', s, Expected(p, s), e')
  {
    var p1, e := PromoteOne(p, s), Expected(p, s);
    forall n | e <= n < e'
      ensures At(p.queued, s, n)
    {
      if n > e {
        assert At(p1.queued, s, n);
        assert Holds(p1.queued, s, n, p1.queued[s][n]);
      }
    }
  }

  lemma {:induction false} OneMorePending(p: Pool, p': Pool, s: Address, e': nat)
    requires At(p.queued, s, Expected(p, s)) && e' > Expected(p, s)
    requires PendingRunMoved(PromoteOne(p, s), p', s, Expected(p, s) + 1, e')
    ensures PendingRunMoved(p, p', s, Expected(p, s), e')
  {
    var p1, e := PromoteOne(p, s), Expected(p, s);
    forall s', n: nat, h
      ensures Holds(p'.pending, s', n, h) <==>
        if s' == s && e <= n < e' then Holds(p.queued, s', n, h) else Holds(p.pending, s', n, h)
    {
    }
  }

  lemma {:induction false} StillQueued(p: Pool, s: Address, n: nat)
    requires At(p.queued, s, Expected(p, s)) && At(p.queued, s, n) && n != Expected(p, s)
    ensures At(PromoteOne(p, s).queued, s, n)
  {
    assert Holds(p.queued, s, n, p.queued[s][n]);
    assert Holds(PromoteOne(p, s).queued, s, n, p.queued[s][n]);
  }

  /** Promotion moves exactly the longest run of queued nonces that starts at the
      expected one, and moves the expected nonce to its end. */
  lemma {:induction false} PromotesLongestRun(p: Pool, s: Address)
    requires s in p.nonces
    ensures var p' := Promote(p, s);
      var e, e' := Expected(p, s), Expected(p', s);
      && s in p'.nonces && e <= e' && !At(p.queued, s, e') && p'.byHash == p.byHash
      && QueuedRunMoved(p, p', s, e, e') && PendingRunMoved(p, p', s, e, e')
    decreases QueuedCount(p, s)
  {
    var e := Expected(p, s);
    if At(p.queued, s, e) {
      var p1, p' := PromoteOne(p, s), Promote(p, s);
      PromotesLongestRun(p1, s);
      OneMoreMoved(p, p', s, Expected(p', s));
      OneMorePending(p, p', s, Expected(p', s));
      var e' := Expected(p', s);
      if At(p.queued, s, e') {
        StillQueued(p, s, e');
        assert false;
      }
    }
  }

  // ---- What an answer means ----

  /** The other nonces that sender `s` has queued. */
  ghost function OtherQueued(p: Pool, s: Address, n: nat): set<nat> {
    if s in p.queued then p.queued[s].Keys - {n} else {}
  }

  /** The queue limit leaves a place for nonce `n`. */
  ghost predicate RoomFor(p: Pool, s: Address, n: nat) {
    |OtherQueued(p, s, n)| < 64 || exists k :: k in OtherQueued(p, s, n) && k > n
  }

  lemma {:induction false} QueueGrows(p: Pool, v: VTx)
    requires !At(p.queued, v.tx.sender, v.tx.nonce)
    ensures QueuedCount(AddQueued(p, v), v.tx.sender) == QueuedCount(p, v.tx.sender) + 1
  {
    AddedKey(if v.tx.sender in p.queued then p.queued[v.tx.sender] else map[], v.tx.nonce, v.tx.hash);
  }

  lemma {:induction false} QueueShrinks(p: Pool, s: Address, n: nat)
    requires At(p.queued, s, n)
    ensures QueuedCount(DropQueued(p, s, n), s) == QueuedCount(p, s) - 1
  {
    DroppedKey(p.queued[s], n);
  }

  /** One more queued transaction makes the limit drop at most one: the highest nonce. */
  lemma {:induction false} TrimOnce(p: Pool, v: VTx) returns (m: nat)
    requires Limited(p, v.tx.sender) && !At(p.queued, v.tx.sender, v.tx.nonce)
    ensures var s, q := v.tx.sender, AddQueued(p, v);
      && s in q.queued && IsHighest(q.queued[s], m)
      && Trim(q, s) == if QueuedCount(p, s) < MAX_QUEUED_PER_SENDER then q else DropQueued(q, s, m)
  {
    var s, q := v.tx.sender, AddQueued(p, v);
    QueueGrows(p, v);
    m := HighestOf(q.queued[s].Keys);
    if QueuedCount(p, s) == MAX_QUEUED_PER_SENDER {
      TrimStep(q, s, m);
      QueueShrinks(q, s, m);
    }
  }

  /** The dropped nonce is that of the new transaction exactly when there is no room. */
  lemma {:induction false} DroppedNonce(p: Pool, v: VTx, m: nat)
    requires !At(p.queued, v.tx.sender, v.tx.nonce) && IsHighest(AddQueued(p, v).queued[v.tx.sender], m)
    ensures m == v.tx.nonce <==> forall k :: k in OtherQueued(p, v.tx.sender, v.tx.nonce) ==> k < v.tx.nonce
  {
    var s, n, q := v.tx.sender, v.tx.nonce, AddQueued(p, v);
    assert forall k :: k in q.queued[s] <==> k == n || k in OtherQueued(p, s, n);
  }

  /** Dropping nonce `m` takes the new transaction exactly if it is its nonce. */
  lemma {:induction false} DroppedHash(p: Pool, v: VTx, m: nat)
    requires Backed(p.queued, p.byHash) && v.tx.hash !in p.byHash && !At(p.queued, v.tx.sender, v.tx.nonce)
    requires At(AddQueued(p, v).queued, v.tx.sender, m)
    ensures var p' := DropQueued(AddQueued(p, v), v.tx.sender, m);
      if m == v.tx.nonce then v.tx.hash !in p'.byHash
      else v.tx.hash in p'.byHash && p'.byHash[v.tx.hash] == v
           && Holds(p'.queued, v.tx.sender, v.tx.nonce, v.tx.hash)
  {
    var s, q := v.tx.sender, AddQueued(p, v);
    assert Holds(q.queued, s, m, q.queued[s][m]);
    assert Holds(q.queued, s, v.tx.nonce, v.tx.hash);
  }

  /** After the limit, the new transaction is queued if there was room and gone if not. */
  lemma {:induction false} PlacedQueued(p: Pool, v: VTx)
    requires Backed(p.queued, p.byHash) && Limited(p, v.tx.sender)
    requires v.tx.hash !in p.byHash && !At(p.queued, v.tx.sender, v.tx.nonce)
    ensures var p' := Trim(AddQueued(p, v), v.tx.sender);
      && (v.tx.hash in p'.byHash <==> RoomFor(p, v.tx.sender, v.tx.nonce))
      && (v.tx.hash in p'.byHash ==> Holds(p'.queued, v.tx.sender, v.tx.nonce, v.tx.hash) && p'.byHash[v.tx.hash] == v)
  {
    var s, n, q := v.tx.sender, v.tx.nonce, AddQueued(p, v);
    var m := TrimOnce(p, v);
    DroppedNonce(p, v, m);
    assert QueuedCount(p, s) == |OtherQueued(p, s, n)| by {
      assert s in p.queued ==> OtherQueued(p, s, n) == p.queued[s].Keys;
    }
    if QueuedCount(p, s) == MAX_QUEUED_PER_SENDER {
      DroppedHash(p, v, m);
    } else {
      assert Holds(q.queued, s, n, v.tx.hash);
    }
  }

  lemma {:induction false} PlacedPending(p: Pool, v: VTx)
    requires v.tx.hash !in p.byHash && v.tx.nonce == Expected(p, v.tx.sender)
    ensures var p' := Promote(AddPending(p, v), v.tx.sender);
      && Holds(p'.pending, v.tx.sender, v.tx.nonce, v.tx.hash)
      && v.tx.hash in p'.byHash && p'.byHash[v.tx.hash] == v
      && |p'.byHash| == |p.byHash| + 1
  {
    var q := AddPending(p, v);
    PromotesLongestRun(q, v.tx.sender);
    AddedKey(p.byHash, v.tx.hash, v);
  }

  lemma {:induction false} VacatedFrame(p: Pool, v: VTx)
    requires Inv(p)
    ensures var q := Vacated(p, v);
      && OtherQueued(q, v.tx.sender, v.tx.nonce) == OtherQueued(p, v.tx.sender, v.tx.nonce)
      && q.heads == p.heads && q.capacity == p.capacity
  {
    if At(p.queued, v.tx.sender, v.tx.nonce) {
      DropQueuedIsRemove(p, v.tx.sender, v.tx.nonce);
    }
  }

  /** What the result of an addition tells about the pool after it. */
  ghost predicate Answers(p: Pool, v: VTx, p': Pool, r: AddResult) {
    match r
    case Rejected => v.tx.hash !in p'.byHash
    case AddedPending =>
      && v.tx.hash in p'.byHash && p'.byHash[v.tx.hash] == v
      && Holds(p'.pending, v.tx.sender, v.tx.nonce, v.tx.hash)
    case AddedQueued =>
      && (v.tx.hash in p'.byHash <==> RoomFor(p, v.tx.sender, v.tx.nonce))
      && (v.tx.hash in p'.byHash ==>
           p'.byHash[v.tx.hash] == v && Holds(p'.queued, v.tx.sender, v.tx.nonce, v.tx.hash))
  }

  lemma {:induction false} PlaceAnswers(p: Pool, v: VTx)
    requires Inv(p) && v.tx.hash !in p.byHash && !At(p.queued, v.tx.sender, v.tx.nonce)
    ensures var (p', r) := Place(p, v); Answers(p, v, p', r)
  {
    assert Limited(p, v.tx.sender);
    if v.tx.nonce == Expected(p, v.tx.sender) {
      PlacedPending(p, v);
    } else {
      PlacedQueued(p, v);
    }
  }

  /** What an answer tells depends only on the queue before it. */
  lemma {:induction false} SameAnswers(p: Pool, e: Pool, v: VTx, p': Pool, r: AddResult)
    requires e.queued == p.queued && Answers(e, v, p', r)
    ensures Answers(p, v, p', r)
  {
  }

  lemma {:induction false} AddNewIs(p: Pool, v: VTx)
    ensures AddNew(p, v) == Place(p, v) || AddNew(p, v) == (p, Rejected) || AddNew(p, v) == Place(EvictLowest(p), v)
  {
  }

  lemma {:induction false} AddNewAnswers(p: Pool, v: VTx)
    requires Inv(p) && v.tx.hash !in p.byHash && !At(p.queued, v.tx.sender, v.tx.nonce)
    ensures var (p', r) := AddNew(p, v); Answers(p, v, p', r)
  {
    AddNewIs(p, v);
    PlaceAnswers(p, v);
    EvictInv(p);
    PlaceAnswers(EvictLowest(p), v);
    SameAnswers(p, EvictLowest(p), v, Place(EvictLowest(p), v).0, Place(EvictLowest(p), v).1);
  }

  lemma {:induction false} AddOldAnswers(p: Pool, v: VTx)
    requires v.tx.hash !in p.byHash
    ensures var (p', r) := AddOld(p, v); !r.AddedQueued? && Answers(p, v, p', r)
  {
    var p' := AddOld(p, v).0;
    assert p' != p ==> Holds(p'.pending, v.tx.sender, v.tx.nonce, v.tx.hash);
  }

  /** A transaction reported as pending is pending. One reported as queued is in the pool
      exactly if the queue limit left room: with 64 others queued at lower nonces it has
      been dropped. A rejected one is not in the pool. */
  lemma {:induction false} TryAddAnswers(p: Pool, v: VTx, base: nat)
    requires Inv(p) && v.tx.hash !in p.byHash
    ensures var (p', r) := TryAdd(p, v, base); Answers(p, v, p', r)
  {
    var p0 := Meet(p, v.tx.sender, base);
    MeetInv(p, v.tx.sender, base);
    if v.tx.nonce < Expected(p0, v.tx.sender) {
      AddOldAnswers(p0, v);
    } else if !TooCheap(p0, v) {
      VacatedInv(p0, v);
      VacatedFrame(p0, v);
      AddNewAnswers(Vacated(p0, v), v);
    }
  }

  /** A transaction takes the place of another only for 110 percent of its fee, rounded
      down. */
  lemma {:induction false} ReplacementPays(p: Pool, v: VTx, base: nat, prev: TxHash)
    requires Inv(p) && v.tx.hash !in p.byHash && !TryAdd(p, v, base).1.Rejected?
    requires Holds(p.pending, v.tx.sender, v.tx.nonce, prev) || Holds(p.queued, v.tx.sender, v.tx.nonce, prev)
    ensures prev in p.byHash && 100 * v.tx.fee > 110 * p.byHash[prev].tx.fee - 100
  {
    var s, n := v.tx.sender, v.tx.nonce;
    if Holds(p.pending, s, n, prev) {
      assert n < p.nonces[s];
    }
  }

  // ---- Capacity ----

  lemma {:induction false} LastOf(heads: set<Head>) returns (a: Head)
    requires heads != {}
    ensures IsLast(heads, a)
    decreases |heads|
  {
    var x :| x in heads;
    a := x;
    if heads != {x} {
      var b := LastOf(heads - {x});
      assert forall y :: y in heads && y != x ==> y in heads - {x};
      a := if Before(x, b) then b else x;
    }
  }

  lemma {:induction false} VictimExists(p: Pool)
    requires HeadsTrue(p) && p.heads != {}
    ensures exists h :: IsVictim(p, h)
  {
    var hd := LastOf(p.heads);
    var n :| HeadAt(p, hd.sender, n, hd);
    assert IsVictim(p, p.pending[hd.sender][n]);
  }

  lemma {:induction false} RemovesOne(p: Pool, h: TxHash)
    requires h in p.byHash
    ensures |Remove(p, h).byHash| == |p.byHash| - 1
  {
    DroppedKey(p.byHash, h);
  }

  /** Eviction takes exactly one transaction, if there is a head. */
  lemma {:induction false} EvictsOne(p: Pool)
    requires Agree(p) && HeadsTrue(p)
    ensures |EvictLowest(p).byHash| == if p.heads == {} then |p.byHash| else |p.byHash| - 1
  {
    if p.heads != {} {
      VictimExists(p);
      var h :| IsVictim(p, h) && EvictLowest(p) == Remove(p, h);
      VictimIsPending(p, h);
      RemovesOne(p, h);
    }
  }

  /** A place for `v` is one that the queue limit does not take from another. */
  predicate TakesPlace(p: Pool, v: VTx) {
    v.tx.nonce == Expected(p, v.tx.sender) || QueuedCount(p, v.tx.sender) < MAX_QUEUED_PER_SENDER
  }

  lemma {:induction false} PlacedQueuedSize(p: Pool, v: VTx)
    requires Backed(p.queued, p.byHash) && Limited(p, v.tx.sender)
    requires v.tx.hash !in p.byHash && !At(p.queued, v.tx.sender, v.tx.nonce)
    ensures |Trim(AddQueued(p, v), v.tx.sender).byHash| ==
      if QueuedCount(p, v.tx.sender) < MAX_QUEUED_PER_SENDER then |p.byHash| + 1 else |p.byHash|
  {
    var s, h, q := v.tx.sender, v.tx.hash, AddQueued(p, v);
    var m := TrimOnce(p, v);
    assert m != v.tx.nonce ==> Holds(p.queued, s, m, q.queued[s][m]);
    AddedKey(p.byHash, h, v);
    DroppedKey(q.byHash, q.queued[s][m]);
  }

  lemma {:induction false} PlaceSize(p: Pool, v: VTx)
    requires Backed(p.queued, p.byHash) && Limited(p, v.tx.sender)
    requires v.tx.hash !in p.byHash && !At(p.queued, v.tx.sender, v.tx.nonce)
    ensures |Place(p, v).0.byHash| == |p.byHash| + if TakesPlace(p, v) then 1 else 0
  {
    if v.tx.nonce == Expected(p, v.tx.sender) {
      PlacedPending(p, v);
    } else {
      PlacedQueuedSize(p, v);
    }
  }

  /** What `AddNew` adds to places into a pool that still satisfies the invariants. */
  lemma {:induction false} EvictThenPlace(p: Pool, v: VTx)
    requires Inv(p) && v.tx.hash !in p.byHash && !At(p.queued, v.tx.sender, v.tx.nonce)
    ensures |Place(EvictLowest(p), v).0.byHash| <= |EvictLowest(p).byHash| + 1
  {
    EvictInv(p);
    assert Limited(EvictLowest(p), v.tx.sender);
    PlaceSize(EvictLowest(p), v);
  }

  lemma {:induction false} FullPoolEvicts(p: Pool, v: VTx)
    requires |p.byHash| >= p.capacity && |EvictLowest(p).byHash| < |p.byHash|
    requires |Place(EvictLowest(p), v).0.byHash| <= |EvictLowest(p).byHash| + 1
    ensures |AddNew(p, v).0.byHash| <= |p.byHash|
  {
  }

  lemma {:induction false} HeadlessAdds(p: Pool, v: VTx)
    requires |p.byHash| >= p.capacity && p.heads == {}
    ensures AddNew(p, v) == Place(p, v)
  {
    assert forall hd :: !IsLast(p.heads, hd);
  }

  lemma {:induction false} AddNewSize(p: Pool, v: VTx)
    requires Inv(p) && v.tx.hash !in p.byHash && !At(p.queued, v.tx.sender, v.tx.nonce) && |p.byHash| <= p.capacity
    ensures |AddNew(p, v).0.byHash| > p.capacity <==> |p.byHash| == p.capacity && p.heads == {} && TakesPlace(p, v)
  {
    assert Limited(p, v.tx.sender);
    if |p.byHash| < p.capacity {
      PlaceSize(p, v);
    } else if p.heads == {} {
      HeadlessAdds(p, v);
      PlaceSize(p, v);
    } else {
      EvictsOne(p);
      EvictThenPlace(p, v);
      FullPoolEvicts(p, v);
    }
  }

  lemma {:induction false} AddOldSize(p: Pool, v: VTx)
    requires v.tx.hash !in p.byHash
    ensures |AddOld(p, v).0.byHash| == |p.byHash|
  {
    var s, n := v.tx.sender, v.tx.nonce;
    if At(p.pending, s, n) && p.pending[s][n] in p.byHash {
      DroppedKey(p.byHash, p.pending[s][n]);
      AddedKey(p.byHash - {p.pending[s][n]}, v.tx.hash, v);
    }
  }

  lemma {:induction false} VacatedSize(p: Pool, v: VTx)
    requires Agree(p) && At(p.queued, v.tx.sender, v.tx.nonce)
    ensures |Vacated(p, v).byHash| == |p.byHash| - 1
  {
    var s, n := v.tx.sender, v.tx.nonce;
    assert Holds(p.queued, s, n, p.queued[s][n]);
    RemovesOne(p, p.queued[s][n]);
  }

  /** When `v` looks for a place of its own: its nonce is not below the expected one, and
      nothing is queued for it. */
  predicate SeeksPlace(p: Pool, v: VTx) {
    v.tx.nonce >= Expected(p, v.tx.sender) && !At(p.queued, v.tx.sender, v.tx.nonce)
  }

  lemma {:induction false} SeekersAreNew(p: Pool, v: VTx, base: nat)
    requires v.tx.hash !in p.byHash && SeeksPlace(Meet(p, v.tx.sender, base), v)
    ensures TryAdd(p, v, base) == AddNew(Meet(p, v.tx.sender, base), v)
  {
  }

  lemma {:induction false} OthersFit(p: Pool, v: VTx, base: nat)
    requires Inv(p) && v.tx.hash !in p.byHash && |p.byHash| <= p.capacity
    requires !SeeksPlace(Meet(p, v.tx.sender, base), v)
    ensures |TryAdd(p, v, base).0.byHash| <= p.capacity
  {
    var q := Meet(p, v.tx.sender, base);
    MeetInv(p, v.tx.sender, base);
    if v.tx.nonce < Expected(q, v.tx.sender) {
      AddOldSize(q, v);
    } else if !TooCheap(q, v) {
      VacatedInv(q, v);
      VacatedSize(q, v);
      VacatedFrame(q, v);
      AddNewSize(Vacated(q, v), v);
    }
  }

  /** An addition makes the pool exceed its capacity exactly if the pool is full, no sender
      has an entry in the fee index, and the transaction takes a place of its own: for the
      expected nonce, or for a later free one with fewer than 64 queued. */
  lemma {:induction false} ExceedsCapacityExactly(p: Pool, v: VTx, base: nat)
    requires Inv(p) && |p.byHash| <= p.capacity
    ensures var q := Meet(p, v.tx.sender, base);
      |TryAdd(p, v, base).0.byHash| > p.capacity <==>
      v.tx.hash !in p.byHash && |p.byHash| == p.capacity && p.heads == {} && SeeksPlace(q, v) && TakesPlace(q, v)
  {
    var q := Meet(p, v.tx.sender, base);
    if v.tx.hash !in p.byHash {
      if SeeksPlace(q, v) {
        MeetInv(p, v.tx.sender, base);
        SeekersAreNew(p, v, base);
        AddNewSize(q, v);
      } else {
        OthersFit(p, v, base);
      }
    }
  }

  /** `v` takes the place of a queued transaction, if there is room. */
  predicate Replaces(p: Pool, v: VTx, base: nat) {
    var q := Meet(p, v.tx.sender, base);
    && v.tx.hash !in p.byHash && v.tx.nonce >= Expected(q, v.tx.sender)
    && At(q.queued, v.tx.sender, v.tx.nonce) && !TooCheap(q, v)
  }

  /** What a rejection can cost: `v` would replace a queued transaction, but the pool is
      over its capacity even without that one, and the last entry of the fee index pays as
      much. */
  ghost predicate LosesReplaced(p: Pool, v: VTx, base: nat) {
    && Replaces(p, v, base)
    && |p.byHash| > p.capacity && exists hd :: IsLast(p.heads, hd) && v.tx.fee <= hd.fee
  }

  lemma {:induction false} AddNewRejects(p: Pool, v: VTx)
    ensures var (p', r) := AddNew(p, v);
      && (r.Rejected? <==> |p.byHash| >= p.capacity && exists hd :: IsLast(p.heads, hd) && v.tx.fee <= hd.fee)
      && (r.Rejected? ==> p' == p)
  {
  }

  lemma {:induction false} ReplacerRejected(p: Pool, v: VTx)
    requires |Vacated(p, v).byHash| == |p.byHash| - 1
    requires Vacated(p, v).heads == p.heads && Vacated(p, v).capacity == p.capacity
    ensures var (p', r) := AddNew(Vacated(p, v), v);
      && (r.Rejected? <==> |p.byHash| > p.capacity && exists hd :: IsLast(p.heads, hd) && v.tx.fee <= hd.fee)
      && (r.Rejected? ==> p' == Vacated(p, v))
  {
    AddNewRejects(Vacated(p, v), v);
  }

  lemma {:induction false} ReplacerAnswer(p: Pool, v: VTx, base: nat)
    requires Inv(p) && Replaces(p, v, base)
    ensures var (p', r) := TryAdd(p, v, base); var q := Meet(p, v.tx.sender, base);
      (r.Rejected? <==> LosesReplaced(p, v, base)) && (r.Rejected? ==> p' == Vacated(q, v) && p'.byHash != p.byHash)
  {
    var q := Meet(p, v.tx.sender, base);
    MeetInv(p, v.tx.sender, base);
    VacatedSize(q, v);
    VacatedFrame(q, v);
    ReplacerRejected(q, v);
  }

  lemma {:induction false} OtherRejections(p: Pool, v: VTx, base: nat)
    requires !Replaces(p, v, base) && TryAdd(p, v, base).1.Rejected?
    ensures var p' := TryAdd(p, v, base).0; p' == p || p' == Meet(p, v.tx.sender, base)
  {
    AddNewRejects(Meet(p, v.tx.sender, base), v);
  }

  /** A rejection changes the transactions of the pool exactly if it loses the queued one
      that was to be replaced; any other leaves at most the sender's expected nonce behind. */
  lemma {:induction false} RejectionExactly(p: Pool, v: VTx, base: nat)
    requires Inv(p)
    ensures var (p', r) := TryAdd(p, v, base); var q := Meet(p, v.tx.sender, base);
      && (r.Rejected? && p'.byHash != p.byHash <==> LosesReplaced(p, v, base))
      && (LosesReplaced(p, v, base) ==> p' == Vacated(q, v))
      && (r.Rejected? && !LosesReplaced(p, v, base) ==> p' == p || p' == q)
  {
    if Replaces(p, v, base) {
      ReplacerAnswer(p, v, base);
    } else if TryAdd(p, v, base).1.Rejected? {
      OtherRejections(p, v, base);
    }
  }

  lemma {:induction false} FirstIsQueued(v: VTx)
    requires v.tx.nonce > 0
    ensures var p := TryAdd(Empty(1), v, 0).0;
      Holds(p.queued, v.tx.sender, v.tx.nonce, v.tx.hash) && Expected(p, v.tx.sender) == 0
  {
    assert Inv(Empty(1));
    TryAddAnswers(Empty(1), v, 0);
    assert OtherQueued(Empty(1), v.tx.sender, v.tx.nonce) == {};
    var m := TrimOnce(Meet(Empty(1), v.tx.sender, 0), v);
  }

  /** Two operations after which the fee index lacks an entry: a transaction is queued,
      and then the chain state reaches its nonce. */
  lemma {:induction false} HeadCanBeMissing(v: VTx)
    requires v.tx.nonce > 0
    ensures !HeadsComplete(UpdateNonce(TryAdd(Empty(1), v, 0).0, v.tx.sender, v.tx.nonce))
  {
    var p := TryAdd(Empty(1), v, 0).0;
    assert Inv(Empty(1)) && HeadsComplete(Empty(1));
    TryAddInv(Empty(1), v, 0);
    FirstIsQueued(v);
    UpdateKeepsHeadsExactly(p, v.tx.sender, v.tx.nonce);
  }
}
