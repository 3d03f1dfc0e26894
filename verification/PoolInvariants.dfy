/** What every pool operation keeps: the indexes agree, every transaction is counted, and
    the fee index tells the truth. */
module PoolInvariants {
  import opened FiniteSets
  import opened PoolState

  // ---- The invariants ----

  /** Every transaction is filed under its hash, and at its sender and nonce in the
      pending or the queued index. */
  ghost predicate Filed(p: Pool, h: TxHash) {
    && h in p.byHash && p.byHash[h].tx.hash == h
    && var t := p.byHash[h].tx;
       Holds(p.pending, t.sender, t.nonce, h) || Holds(p.queued, t.sender, t.nonce, h)
  }

  /** Every index entry leads to a transaction with that sender and nonce. */
  ghost predicate Backed(m: Index, byHash: map<TxHash, VTx>) {
    forall s, n, h :: Holds(m, s, n, h) ==>
      h in byHash && byHash[h].tx.sender == s && byHash[h].tx.nonce == n
  }

  /** The hash table is the disjoint union of the two indexes. */
  ghost predicate Agree(p: Pool) {
    && (forall h :: h in p.byHash ==> Filed(p, h))
    && Backed(p.pending, p.byHash) && Backed(p.queued, p.byHash)
    && Filled(p.pending) && Filled(p.queued)
    && (forall s, n :: At(p.pending, s, n) ==> !At(p.queued, s, n))
  }

  /** Pending nonces lie below the expected nonce of their sender. */
  ghost predicate PendingBelow(p: Pool) {
    forall s, n :: At(p.pending, s, n) ==> s in p.nonces && n < p.nonces[s]
  }

  /** Nothing is queued for the expected nonce of `s`. */
  ghost predicate NotDue(p: Pool, s: Address) {
    s in p.nonces ==> !At(p.queued, s, p.nonces[s])
  }

  ghost predicate Limited(p: Pool, s: Address) {
    QueuedCount(p, s) <= 64
  }

  ghost predicate Counted(p: Pool) {
    |p.byHash| + p.removed + p.cleared == p.added
  }

  /** Every entry of the fee index is that of its sender's lowest pending nonce. */
  ghost predicate HeadsTrue(p: Pool) {
    forall hd :: hd in p.heads ==> IsHead(p, hd.sender, hd)
  }

  /** Every sender with pending transactions has its entry. */
  ghost predicate HeadsComplete(p: Pool) {
    forall s :: s in p.pending ==> HasHead(p, s)
  }

  ghost predicate HasHead(p: Pool, s: Address) {
    exists hd :: hd in p.heads && IsHead(p, s, hd)
  }

  /** What holds while an operation on `s` is under way. */
  ghost predicate Sound(p: Pool, s: Address) {
    && Agree(p) && PendingBelow(p) && Counted(p) && HeadsTrue(p)
    && p.queued.Keys <= p.nonces.Keys
    && (forall s' :: s' != s ==> NotDue(p, s') && Limited(p, s'))
  }

  /** What holds between operations. */
  ghost predicate Inv(p: Pool) {
    && Agree(p) && PendingBelow(p) && Counted(p) && HeadsTrue(p)
    && p.queued.Keys <= p.nonces.Keys
    && (forall s :: NotDue(p, s) && Limited(p, s))
  }

  // ---- Removing ----

  lemma {:induction false} HeadUnique(p: Pool, s: Address, a: Head, b: Head)
    requires IsHead(p, s, a) && IsHead(p, s, b)
    ensures a == b
  {
  }

  /** A sender's head depends only on its own pending entries. */
  lemma {:induction false} HeadFrame(p: Pool, p': Pool, s: Address)
    requires s in p.pending ==> s in p'.pending && p'.pending[s] == p.pending[s]
    requires forall n, h :: Holds(p.pending, s, n, h) && h in p.byHash ==> h in p'.byHash && p'.byHash[h] == p.byHash[h]
    ensures forall hd :: IsHead(p, s, hd) ==> IsHead(p', s, hd)
  {
    forall hd | IsHead(p, s, hd)
      ensures IsHead(p', s, hd)
    {
      var n :| HeadAt(p, s, n, hd);
      assert Holds(p.pending, s, n, p.pending[s][n]);
      assert HeadAt(p', s, n, hd);
    }
  }

  /** Adding transactions to the hash table alone keeps the fee index as true and as
      complete as it was. */
  lemma {:induction false} HeadsKept(p: Pool, p': Pool)
    requires p'.pending == p.pending && p'.heads == p.heads
    requires forall h :: h in p.byHash ==> h in p'.byHash && p'.byHash[h] == p.byHash[h]
    ensures HeadsTrue(p) ==> HeadsTrue(p')
    ensures HeadsComplete(p) ==> HeadsComplete(p')
  {
    forall s, hd | IsHead(p, s, hd)
      ensures IsHead(p', s, hd)
    {
      HeadFrame(p, p', s);
    }
    if HeadsComplete(p) {
      forall s | s in p'.pending
        ensures HasHead(p', s)
      {
        assert HasHead(p, s);
      }
    }
  }

  lemma {:induction false} DropBacked(m: Index, byHash: map<TxHash, VTx>, s: Address, n: nat)
    requires Backed(m, byHash) && At(m, s, n)
    ensures Backed(Drop(m, s, n), byHash - {m[s][n]})
  {
    assert Holds(m, s, n, m[s][n]);
  }

  lemma {:induction false} OtherBacked(m: Index, byHash: map<TxHash, VTx>, h: TxHash)
    requires Backed(m, byHash) && h in byHash && !At(m, byHash[h].tx.sender, byHash[h].tx.nonce)
    ensures Backed(m, byHash - {h})
  {
  }

  lemma {:induction false} UnfileBacked(p: Pool, h: TxHash)
    requires Agree(p) && h in p.byHash
    ensures var p' := Unfile(p, h);
      && Backed(p'.pending, p'.byHash) && Backed(p'.queued, p'.byHash)
      && forall s, n :: At(p'.pending, s, n) ==> !At(p'.queued, s, n)
  {
    var t := p.byHash[h].tx;
    assert Filed(p, h);
    if At(p.pending, t.sender, t.nonce) {
      assert !At(p.queued, t.sender, t.nonce);
      DropBacked(p.pending, p.byHash, t.sender, t.nonce);
      OtherBacked(p.queued, p.byHash, h);
      DropShrinks(p.pending, t.sender, t.nonce);
    } else {
      DropBacked(p.queued, p.byHash, t.sender, t.nonce);
      OtherBacked(p.pending, p.byHash, h);
      DropShrinks(p.queued, t.sender, t.nonce);
    }
  }

  lemma {:induction false} UnfileAgrees(p: Pool, h: TxHash)
    requires Agree(p) && h in p.byHash
    ensures Agree(Unfile(p, h))
  {
    var p' := Unfile(p, h);
    assert Filed(p, h);
    UnfileBacked(p, h);
    forall k | k in p'.byHash
      ensures Filed(p', k)
    {
      assert Filed(p, k);
    }
  }

  lemma {:induction false} RemoveAgrees(p: Pool, h: TxHash)
    requires Agree(p)
    ensures Agree(Remove(p, h))
  {
    if h in p.byHash {
      UnfileAgrees(p, h);
      SameIndexes(Unfile(p, h), Remove(p, h));
    }
  }

  lemma {:induction false} SameIndexes(p: Pool, p': Pool)
    requires Agree(p) && p'.byHash == p.byHash && p'.pending == p.pending && p'.queued == p.queued
    ensures Agree(p')
  {
    forall h | h in p'.byHash
      ensures Filed(p', h)
    {
      assert Filed(p, h);
    }
  }

  lemma {:induction false} RemoveCounts(p: Pool, h: TxHash)
    requires Counted(p)
    ensures Counted(Remove(p, h))
  {
    if h in p.byHash {
      assert Remove(p, h).byHash.Keys == p.byHash.Keys - {h};
    }
  }

  lemma {:induction false} DropShrinks(m: Index, s: Address, n: nat)
    requires At(m, s, n)
    ensures var r := Drop(m, s, n);
      && r.Keys <= m.Keys && !At(r, s, n)
      && (forall s' :: s' in r ==> |r[s']| <= |m[s']|)
      && (forall s', k :: At(r, s', k) ==> At(m, s', k))
  {
    var r := Drop(m, s, n);
    if s in r {
      SubsetSize(r[s].Keys, m[s].Keys);
    }
  }

  /** Index `r` is `m` with entries gone. */
  ghost predicate Smaller(r: Index, m: Index) {
    && r.Keys <= m.Keys
    && (forall s :: s in r ==> |r[s]| <= |m[s]|)
    && (forall s, k :: At(r, s, k) ==> At(m, s, k))
  }

  lemma {:induction false} UnfileIsSmaller(p: Pool, h: TxHash)
    requires h in p.byHash
    ensures Smaller(Unfile(p, h).pending, p.pending) && Smaller(Unfile(p, h).queued, p.queued)
  {
    var t := p.byHash[h].tx;
    if At(p.pending, t.sender, t.nonce) {
      DropShrinks(p.pending, t.sender, t.nonce);
    } else if At(p.queued, t.sender, t.nonce) {
      DropShrinks(p.queued, t.sender, t.nonce);
    }
  }

  lemma {:induction false} SmallerIsFine(p: Pool, p': Pool)
    requires p'.nonces == p.nonces && Smaller(p'.pending, p.pending) && Smaller(p'.queued, p.queued)
    ensures PendingBelow(p) ==> PendingBelow(p')
    ensures forall s :: (NotDue(p, s) ==> NotDue(p', s)) && (Limited(p, s) ==> Limited(p', s))
  {
  }

  lemma {:induction false} RemoveIsUnfile(p: Pool, h: TxHash)
    requires h in p.byHash
    ensures var p', p1 := Remove(p, h), Unfile(p, h);
      p'.pending == p1.pending && p'.queued == p1.queued && p'.nonces == p.nonces && p'.byHash == p1.byHash
  {
  }

  lemma {:induction false} RemoveIsSmaller(p: Pool, h: TxHash, p': Pool)
    requires p' == Remove(p, h)
    ensures Smaller(p'.pending, p.pending) && Smaller(p'.queued, p.queued) && p'.nonces == p.nonces
  {
    if h in p.byHash {
      RemoveIsUnfile(p, h);
      UnfileIsSmaller(p, h);
    }
  }

  /** Senders other than the removed transaction's keep their heads. */
  lemma {:induction false} RemoveHeadFrame(p: Pool, h: TxHash, s: Address)
    requires Agree(p) && h in p.byHash && p.byHash[h].tx.sender != s
    ensures forall hd :: IsHead(p, s, hd) <==> IsHead(Remove(p, h), s, hd)
  {
    var p' := Remove(p, h);
    assert Filed(p, h);
    HeadFrame(p, p', s);
    HeadFrame(p', p, s);
  }

  /** A removal that is not of the head keeps the head. */
  lemma {:induction false} RemoveKeepsOwnHead(p: Pool, h: TxHash)
    requires Agree(p) && h in p.byHash
    requires var t := p.byHash[h].tx; At(p.pending, t.sender, t.nonce) ==> !IsLowest(p.pending[t.sender], t.nonce)
    ensures Remove(p, h).heads == p.heads
    ensures var s := p.byHash[h].tx.sender;
      forall hd :: IsHead(p, s, hd) ==> IsHead(Remove(p, h), s, hd)
    ensures Remove(p, h).pending.Keys == p.pending.Keys
  {
    var p', s, m := Remove(p, h), p.byHash[h].tx.sender, p.byHash[h].tx.nonce;
    assert Filed(p, h);
    if At(p.pending, s, m) {
      var n :| n in p.pending[s] && n < m;
      assert n in p.pending[s] - {m};
    }
    forall hd | IsHead(p, s, hd)
      ensures IsHead(p', s, hd)
    {
      var n :| HeadAt(p, s, n, hd);
      assert Holds(p.pending, s, n, p.pending[s][n]);
      assert HeadAt(p', s, n, hd);
    }
  }

  /** The removed head was the sender's only entry. */
  lemma {:induction false} RemovedHead(p: Pool, h: TxHash)
    requires Agree(p) && h in p.byHash
    requires var t := p.byHash[h].tx; At(p.pending, t.sender, t.nonce) && IsLowest(p.pending[t.sender], t.nonce)
    ensures IsHead(p, p.byHash[h].tx.sender, HeadFor(p.byHash[h]))
  {
    assert Filed(p, h);
    var t := p.byHash[h].tx;
    assert HeadAt(p, t.sender, t.nonce, HeadFor(p.byHash[h]));
  }

  lemma {:induction false} RemoveKeepsHeads(p: Pool, h: TxHash)
    requires Agree(p) && HeadsTrue(p)
    ensures HeadsTrue(Remove(p, h))
  {
    if h in p.byHash {
      var p', t := Remove(p, h), p.byHash[h].tx;
      forall hd | hd in p'.heads
        ensures IsHead(p', hd.sender, hd)
      {
        if hd.sender != t.sender {
          RemoveHeadFrame(p, h, hd.sender);
        } else if At(p.pending, t.sender, t.nonce) && IsLowest(p.pending[t.sender], t.nonce) {
          RemovedHead(p, h);
          if hd in p.heads {
            HeadUnique(p, t.sender, hd, HeadFor(p.byHash[h]));
          }
          HeadFrame(Unfile(p, h), p', hd.sender);
        } else {
          RemoveKeepsOwnHead(p, h);
        }
      }
    }
  }

  /** The successor of a removed head has its entry. */
  lemma {:induction false} NewHeadHasEntry(p: Pool, h: TxHash)
    requires Agree(p) && h in p.byHash
    requires var t := p.byHash[h].tx; At(p.pending, t.sender, t.nonce) && IsLowest(p.pending[t.sender], t.nonce)
    requires p.byHash[h].tx.sender in Remove(p, h).pending
    ensures HasHead(Remove(p, h), p.byHash[h].tx.sender)
  {
    var s := p.byHash[h].tx.sender;
    UnfileAgrees(p, h);
    var hd := HeadOf(Unfile(p, h), s);
    HeadFrame(Unfile(p, h), Remove(p, h), s);
  }

  lemma {:induction false} RemoveKeepsEntry(p: Pool, h: TxHash, s: Address)
    requires Agree(p) && h in p.byHash && s in Remove(p, h).pending && HasHead(p, s)
    ensures HasHead(Remove(p, h), s)
  {
    var t, p' := p.byHash[h].tx, Remove(p, h);
    var hd :| hd in p.heads && IsHead(p, s, hd);
    if s != t.sender {
      RemoveHeadFrame(p, h, s);
    } else if At(p.pending, s, t.nonce) && IsLowest(p.pending[s], t.nonce) {
      NewHeadHasEntry(p, h);
    } else {
      RemoveKeepsOwnHead(p, h);
    }
  }

  lemma {:induction false} RemoveKeepsComplete(p: Pool, h: TxHash)
    requires Agree(p) && HeadsComplete(p)
    ensures HeadsComplete(Remove(p, h))
  {
    if h in p.byHash {
      forall s | s in Remove(p, h).pending
        ensures HasHead(Remove(p, h), s)
      {
        RemoveKeepsEntry(p, h, s);
      }
    }
  }

  /** A sender with pending transactions has a head. */
  lemma {:induction false} HeadOf(p: Pool, s: Address) returns (hd: Head)
    requires Agree(p) && s in p.pending
    ensures IsHead(p, s, hd)
  {
    var n := LeastOf(p.pending[s].Keys);
    assert Holds(p.pending, s, n, p.pending[s][n]);
    var v := p.byHash[p.pending[s][n]];
    hd := Head(v.tx.fee, v.receivedAt, s);
    assert HeadAt(p, s, n, hd);
  }

  lemma {:induction false} LeastOf(s: set<nat>) returns (m: nat)
    requires s != {}
    ensures IsLeast(s, m)
    decreases |s|
  {
    var x :| x in s;
    m := x;
    if s != {x} {
      var k := LeastOf(s - {x});
      assert forall y :: y in s && y != x ==> y in s - {x};
      m := if k < x then k else x;
    }
  }

  lemma {:induction false} RemoveIsSound(p: Pool, h: TxHash, s: Address)
    requires Sound(p, s)
    ensures Sound(Remove(p, h), s)
    ensures HeadsComplete(p) ==> HeadsComplete(Remove(p, h))
  {
    RemoveAgrees(p, h);
    RemoveCounts(p, h);
    RemoveIsSmaller(p, h, Remove(p, h));
    SmallerIsFine(p, Remove(p, h));
    RemoveKeepsHeads(p, h);
    if HeadsComplete(p) {
      RemoveKeepsComplete(p, h);
    }
  }

  lemma {:induction false} RemoveInv(p: Pool, h: TxHash)
    requires Inv(p)
    ensures Inv(Remove(p, h))
    ensures HeadsComplete(p) ==> HeadsComplete(Remove(p, h))
  {
    RemoveIsSound(p, h, 0);
    RemoveIsSmaller(p, h, Remove(p, h));
    SmallerIsFine(p, Remove(p, h));
  }

  lemma {:induction false} RemoveAllInv(p: Pool, hs: seq<TxHash>)
    requires Inv(p)
    ensures Inv(RemoveAll(p, hs))
    ensures HeadsComplete(p) ==> HeadsComplete(RemoveAll(p, hs))
    decreases |hs|
  {
    if hs != [] {
      RemoveInv(p, hs[0]);
      RemoveAllInv(Remove(p, hs[0]), hs[1..]);
    }
  }

  /** The evicted transaction is pending. */
  lemma {:induction false} VictimIsPending(p: Pool, h: TxHash)
    requires Agree(p) && IsVictim(p, h)
    ensures h in p.byHash && At(p.pending, p.byHash[h].tx.sender, p.byHash[h].tx.nonce)
  {
    var hd, n :| IsLast(p.heads, hd) && hd.sender in p.pending
                 && IsLowest(p.pending[hd.sender], n) && h == p.pending[hd.sender][n];
    assert Holds(p.pending, hd.sender, n, h);
  }

  lemma {:induction false} EvictInv(p: Pool)
    requires Inv(p)
    ensures Inv(EvictLowest(p)) && EvictLowest(p).nonces == p.nonces
    ensures EvictLowest(p).byHash.Keys <= p.byHash.Keys && EvictLowest(p).queued == p.queued
    ensures HeadsComplete(p) ==> HeadsComplete(EvictLowest(p))
  {
    if EvictLowest(p) != p {
      var h :| IsVictim(p, h) && EvictLowest(p) == Remove(p, h);
      VictimIsPending(p, h);
      RemoveInv(p, h);
    }
  }

  // ---- Promotion ----

  lemma {:induction false} PromoteOneFiles(p: Pool, s: Address)
    requires Agree(p) && At(p.queued, s, Expected(p, s))
    ensures var p' := PromoteOne(p, s); forall h :: h in p'.byHash ==> Filed(p', h)
  {
    var p', e := PromoteOne(p, s), Expected(p, s);
    assert Holds(p.queued, s, e, p.queued[s][e]);
    forall k | k in p'.byHash
      ensures Filed(p', k)
    {
      assert Filed(p, k);
    }
  }

  lemma {:induction false} PromoteOneAgrees(p: Pool, s: Address)
    requires Agree(p) && At(p.queued, s, Expected(p, s))
    ensures Agree(PromoteOne(p, s))
  {
    var e := Expected(p, s);
    var h := p.queued[s][e];
    assert Holds(p.queued, s, e, h);
    PromoteOneFiles(p, s);
    DropShrinks(p.queued, s, e);
    PutApart(p.pending, Drop(p.queued, s, e), s, e, h);
  }

  /** A transaction above all others of its sender does not change the sender's head. */
  lemma {:induction false} PutKeepsHead(p: Pool, p': Pool, s: Address, n: nat, h: TxHash, hd: Head)
    requires s in p.pending && p'.pending == Put(p.pending, s, n, h) && forall k: nat :: At(p.pending, s, k) ==> k < n
    requires forall k: nat, g :: Holds(p.pending, s, k, g) ==>
      g in p'.byHash && g in p.byHash && p'.byHash[g] == p.byHash[g]
    requires IsHead(p, s, hd)
    ensures IsHead(p', s, hd)
  {
    var k :| HeadAt(p, s, k, hd);
    assert At(p.pending, s, k) && Holds(p.pending, s, k, p.pending[s][k]);
    assert HeadAt(p', s, k, hd);
  }

  lemma {:induction false} PromoteOneHeads(p: Pool, s: Address)
    requires Agree(p) && PendingBelow(p) && At(p.queued, s, Expected(p, s)) && s in p.nonces
    ensures HeadsTrue(p) ==> HeadsTrue(PromoteOne(p, s))
    ensures HeadsComplete(p) && s in p.pending ==> HeadsComplete(PromoteOne(p, s))
  {
    var p', e := PromoteOne(p, s), Expected(p, s);
    forall s', hd | IsHead(p, s', hd)
      ensures IsHead(p', s', hd)
    {
      if s' == s {
        PutKeepsHead(p, p', s, e, p.queued[s][e], hd);
      } else {
        HeadFrame(p, p', s');
      }
    }
    if HeadsComplete(p) && s in p.pending {
      forall s' | s' in p'.pending
        ensures HasHead(p', s')
      {
        assert HasHead(p, s');
      }
    }
  }

  lemma {:induction false} PromoteOneBelow(p: Pool, s: Address)
    requires PendingBelow(p) && At(p.queued, s, Expected(p, s)) && s in p.nonces
    ensures PendingBelow(PromoteOne(p, s))
  {
    var p', e := PromoteOne(p, s), Expected(p, s);
    forall s', n | At(p'.pending, s', n)
      ensures s' in p'.nonces && n < p'.nonces[s']
    {
      assert Holds(p'.pending, s', n, p'.pending[s'][n]);
      assert (s' == s && n == e) || At(p.pending, s', n);
    }
  }

  lemma {:induction false} PromoteOneQueues(p: Pool, s: Address)
    requires At(p.queued, s, Expected(p, s))
    ensures var p' := PromoteOne(p, s);
      && p'.queued.Keys <= p.queued.Keys
      && forall s' :: (s' != s && NotDue(p, s') ==> NotDue(p', s')) && (Limited(p, s') ==> Limited(p', s'))
  {
    DropShrinks(p.queued, s, Expected(p, s));
  }

  lemma {:induction false} PromoteOneIsSound(p: Pool, s: Address)
    requires Sound(p, s) && At(p.queued, s, Expected(p, s)) && Limited(p, s)
    ensures Sound(PromoteOne(p, s), s) && Limited(PromoteOne(p, s), s)
    ensures HeadsComplete(p) && s in p.pending ==> HeadsComplete(PromoteOne(p, s))
  {
    PromoteOneAgrees(p, s);
    PromoteOneHeads(p, s);
    PromoteOneBelow(p, s);
    PromoteOneQueues(p, s);
  }

  lemma {:induction false} PromoteInv(p: Pool, s: Address)
    requires Sound(p, s) && s in p.nonces && Limited(p, s)
    ensures Inv(Promote(p, s))
    ensures HeadsComplete(p) && s in p.pending ==> HeadsComplete(Promote(p, s))
    decreases QueuedCount(p, s)
  {
    if At(p.queued, s, Expected(p, s)) {
      PromoteOneIsSound(p, s);
      PromoteInv(PromoteOne(p, s), s);
    }
  }

  // ---- The queue limit ----

  lemma {:induction false} HighestOf(s: set<nat>) returns (m: nat)
    requires s != {}
    ensures m in s && forall k :: k in s ==> k <= m
    decreases |s|
  {
    var x :| x in s;
    m := x;
    if s != {x} {
      var k := HighestOf(s - {x});
      assert forall y :: y in s && y != x ==> y in s - {x};
      m := if k > x then k else x;
    }
  }

  /** Dropping a queued transaction is removing it. */
  lemma {:induction false} DropQueuedIsRemove(p: Pool, s: Address, n: nat)
    requires Agree(p) && At(p.queued, s, n)
    ensures DropQueued(p, s, n) == Remove(p, p.queued[s][n])
  {
    assert Holds(p.queued, s, n, p.queued[s][n]);
  }

  lemma {:induction false} DropQueuedIsSound(p: Pool, s: Address, n: nat)
    requires Sound(p, s) && NotDue(p, s) && At(p.queued, s, n)
    ensures var p' := DropQueued(p, s, n); Sound(p', s) && NotDue(p', s) && (HeadsComplete(p) ==> HeadsComplete(p'))
  {
    DropQueuedIsRemove(p, s, n);
    RemoveIsSound(p, p.queued[s][n], s);
    RemoveIsSmaller(p, p.queued[s][n], Remove(p, p.queued[s][n]));
    SmallerIsFine(p, Remove(p, p.queued[s][n]));
  }

  lemma {:induction false} TrimStep(p: Pool, s: Address, n: nat)
    requires QueuedCount(p, s) > MAX_QUEUED_PER_SENDER && IsHighest(p.queued[s], n)
    ensures Trim(p, s) == Trim(DropQueued(p, s, n), s)
  {
    assert forall k :: IsHighest(p.queued[s], k) ==> k == n;
  }

  lemma {:induction false} TrimInv(p: Pool, s: Address)
    requires Sound(p, s) && NotDue(p, s)
    ensures Inv(Trim(p, s))
    ensures HeadsComplete(p) ==> HeadsComplete(Trim(p, s))
    decreases QueuedCount(p, s)
  {
    if QueuedCount(p, s) > MAX_QUEUED_PER_SENDER {
      var n := HighestOf(p.queued[s].Keys);
      TrimStep(p, s, n);
      DropQueuedIsSound(p, s, n);
      TrimInv(DropQueued(p, s, n), s);
    }
  }

  // ---- Adding ----

  /** Both ways of adding a transaction file it once. */
  lemma {:induction false} AddFiles(p: Pool, p': Pool, v: VTx)
    requires Agree(p) && v.tx.hash !in p.byHash && p'.byHash == p.byHash[v.tx.hash := v]
    requires !At(p.pending, v.tx.sender, v.tx.nonce) && !At(p.queued, v.tx.sender, v.tx.nonce)
    requires var t := v.tx;
      || (p'.pending == Put(p.pending, t.sender, t.nonce, t.hash) && p'.queued == p.queued)
      || (p'.queued == Put(p.queued, t.sender, t.nonce, t.hash) && p'.pending == p.pending)
    ensures forall h :: h in p'.byHash ==> Filed(p', h)
  {
    forall h | h in p'.byHash
      ensures Filed(p', h)
    {
      assert h != v.tx.hash ==> Filed(p, h);
    }
  }

  lemma {:induction false} AddBacked(m: Index, byHash: map<TxHash, VTx>, v: VTx)
    requires Backed(m, byHash) && v.tx.hash !in byHash
    ensures Backed(m, byHash[v.tx.hash := v])
    ensures Backed(Put(m, v.tx.sender, v.tx.nonce, v.tx.hash), byHash[v.tx.hash := v])
  {
  }

  /** Two indexes stay apart when one gets an entry that neither has. */
  lemma {:induction false} PutApart(a: Index, b: Index, s: Address, n: nat, h: TxHash)
    requires (forall s', n' :: At(a, s', n') ==> !At(b, s', n')) && !At(b, s, n)
    ensures forall s', n' :: At(Put(a, s, n, h), s', n') ==> !At(b, s', n')
  {
    forall s', n' | At(Put(a, s, n, h), s', n')
      ensures !At(b, s', n')
    {
      assert Holds(Put(a, s, n, h), s', n', Put(a, s, n, h)[s'][n']);
    }
  }

  lemma {:induction false} AddAgrees(p: Pool, p': Pool, v: VTx)
    requires Agree(p) && v.tx.hash !in p.byHash && p'.byHash == p.byHash[v.tx.hash := v]
    requires !At(p.pending, v.tx.sender, v.tx.nonce) && !At(p.queued, v.tx.sender, v.tx.nonce)
    requires var t := v.tx;
      || (p'.pending == Put(p.pending, t.sender, t.nonce, t.hash) && p'.queued == p.queued)
      || (p'.queued == Put(p.queued, t.sender, t.nonce, t.hash) && p'.pending == p.pending)
    ensures Agree(p')
  {
    var t := v.tx;
    AddFiles(p, p', v);
    AddBacked(p.pending, p.byHash, v);
    AddBacked(p.queued, p.byHash, v);
    PutApart(p.pending, p.queued, t.sender, t.nonce, t.hash);
    PutApart(p.queued, p.pending, t.sender, t.nonce, t.hash);
  }

  lemma {:induction false} AddCounts(p: Pool, p': Pool, v: VTx)
    requires Counted(p) && v.tx.hash !in p.byHash && p'.byHash == p.byHash[v.tx.hash := v]
    requires p'.added == p.added + 1 && p'.removed == p.removed && p'.cleared == p.cleared
    ensures Counted(p')
  {
    assert p'.byHash.Keys == p.byHash.Keys + {v.tx.hash};
  }

  lemma {:induction false} AddPendingHeads(p: Pool, v: VTx)
    requires Agree(p) && PendingBelow(p) && v.tx.hash !in p.byHash
    requires v.tx.sender in p.nonces && v.tx.nonce == p.nonces[v.tx.sender]
    ensures HeadsTrue(p) ==> HeadsTrue(AddPending(p, v))
    ensures HeadsComplete(p) ==> HeadsComplete(AddPending(p, v))
  {
    var p', s, n := AddPending(p, v), v.tx.sender, v.tx.nonce;
    forall s', hd | IsHead(p, s', hd)
      ensures IsHead(p', s', hd)
    {
      if s' == s {
        PutKeepsHead(p, p', s, n, v.tx.hash, hd);
      } else {
        HeadFrame(p, p', s');
      }
    }
    if s !in p.pending {
      assert HeadAt(p', s, n, HeadFor(v));
    }
    if HeadsComplete(p) {
      forall s' | s' in p'.pending
        ensures HasHead(p', s')
      {
        if s' in p.pending {
          assert HasHead(p, s');
        } else {
          assert IsHead(p', s, HeadFor(v));
        }
      }
    }
  }

  lemma {:induction false} AddPendingBelow(p: Pool, v: VTx)
    requires PendingBelow(p) && v.tx.sender in p.nonces && v.tx.nonce == p.nonces[v.tx.sender]
    ensures PendingBelow(AddPending(p, v))
  {
    var p', s := AddPending(p, v), v.tx.sender;
    forall s', n | At(p'.pending, s', n)
      ensures s' in p'.nonces && n < p'.nonces[s']
    {
      assert Holds(p'.pending, s', n, p'.pending[s'][n]);
      assert (s' == s && n == v.tx.nonce) || At(p.pending, s', n);
    }
  }

  lemma {:induction false} QueuesKept(p: Pool, p': Pool, s: Address)
    requires p'.queued == p.queued && NotDue(p, s) && Limited(p, s)
    requires s in p'.nonces ==> s in p.nonces && p'.nonces[s] == p.nonces[s]
    ensures NotDue(p', s) && Limited(p', s)
  {
  }

  lemma {:induction false} AddPendingAgrees(p: Pool, v: VTx)
    requires Agree(p) && Counted(p) && PendingBelow(p) && NotDue(p, v.tx.sender) && v.tx.hash !in p.byHash
    requires v.tx.sender in p.nonces && v.tx.nonce == p.nonces[v.tx.sender]
    ensures var p' := AddPending(p, v); Agree(p') && Counted(p') && PendingBelow(p')
  {
    AddAgrees(p, AddPending(p, v), v);
    AddCounts(p, AddPending(p, v), v);
    AddPendingBelow(p, v);
  }

  lemma {:induction false} AddPendingIsSound(p: Pool, v: VTx, p': Pool)
    requires Inv(p) && v.tx.hash !in p.byHash && p' == AddPending(p, v)
    requires v.tx.sender in p.nonces && v.tx.nonce == p.nonces[v.tx.sender]
    ensures Sound(p', v.tx.sender) && (HeadsComplete(p) ==> HeadsComplete(p'))
  {
    assert NotDue(p, v.tx.sender);
    AddPendingAgrees(p, v);
    AddPendingHeads(p, v);
    forall s | s != v.tx.sender
      ensures NotDue(p', s) && Limited(p', s)
    {
      QueuesKept(p, p', s);
    }
  }

  lemma {:induction false} AddQueuedNotDue(p: Pool, v: VTx, s: Address)
    requires v.tx.sender in p.nonces && v.tx.nonce > p.nonces[v.tx.sender] && NotDue(p, s) && Limited(p, s)
    ensures NotDue(AddQueued(p, v), s) && (s != v.tx.sender ==> Limited(AddQueued(p, v), s))
  {
    var p' := AddQueued(p, v);
    if s in p.nonces && At(p'.queued, s, p.nonces[s]) {
      assert Holds(p'.queued, s, p.nonces[s], p'.queued[s][p.nonces[s]]);
      assert false;
    }
  }

  lemma {:induction false} AddQueuedAgrees(p: Pool, v: VTx)
    requires Agree(p) && Counted(p) && PendingBelow(p) && v.tx.hash !in p.byHash && !At(p.queued, v.tx.sender, v.tx.nonce)
    requires v.tx.sender in p.nonces && v.tx.nonce > p.nonces[v.tx.sender]
    ensures var p' := AddQueued(p, v); Agree(p') && Counted(p') && PendingBelow(p')
  {
    AddAgrees(p, AddQueued(p, v), v);
    AddCounts(p, AddQueued(p, v), v);
  }

  lemma {:induction false} AddQueuedIsSound(p: Pool, v: VTx, p': Pool)
    requires Inv(p) && v.tx.hash !in p.byHash && !At(p.queued, v.tx.sender, v.tx.nonce) && p' == AddQueued(p, v)
    requires v.tx.sender in p.nonces && v.tx.nonce > p.nonces[v.tx.sender]
    ensures Sound(p', v.tx.sender) && NotDue(p', v.tx.sender) && (HeadsComplete(p) ==> HeadsComplete(p'))
  {
    AddQueuedAgrees(p, v);
    HeadsKept(p, p');
    forall s
      ensures NotDue(p', s) && (s != v.tx.sender ==> Limited(p', s))
    {
      AddQueuedNotDue(p, v, s);
    }
  }

  lemma {:induction false} PlaceInv(p: Pool, v: VTx)
    requires Inv(p) && v.tx.hash !in p.byHash && !At(p.queued, v.tx.sender, v.tx.nonce)
    requires v.tx.sender in p.nonces && v.tx.nonce >= p.nonces[v.tx.sender]
    ensures Inv(Place(p, v).0)
    ensures HeadsComplete(p) ==> HeadsComplete(Place(p, v).0)
  {
    var s := v.tx.sender;
    assert Limited(p, s);
    if v.tx.nonce == p.nonces[s] {
      AddPendingIsSound(p, v, AddPending(p, v));
      PromoteInv(AddPending(p, v), s);
    } else {
      AddQueuedIsSound(p, v, AddQueued(p, v));
      TrimInv(AddQueued(p, v), s);
    }
  }

  lemma {:induction false} AddNewInv(p: Pool, v: VTx)
    requires Inv(p) && v.tx.hash !in p.byHash && !At(p.queued, v.tx.sender, v.tx.nonce)
    requires v.tx.sender in p.nonces && v.tx.nonce >= p.nonces[v.tx.sender]
    ensures Inv(AddNew(p, v).0)
    ensures HeadsComplete(p) ==> HeadsComplete(AddNew(p, v).0)
  {
    if |p.byHash| < p.capacity {
      PlaceInv(p, v);
    } else {
      EvictInv(p);
      PlaceInv(EvictLowest(p), v);
    }
  }

  // ---- Replacing ----

  lemma {:induction false} ReplaceFiles(p: Pool, v: VTx, prev: TxHash)
    requires Agree(p) && v.tx.hash !in p.byHash && Holds(p.pending, v.tx.sender, v.tx.nonce, prev)
    requires prev in p.byHash
    ensures var p' := Replace(p, v, prev); forall h :: h in p'.byHash ==> Filed(p', h)
  {
    var p' := Replace(p, v, prev);
    forall h | h in p'.byHash
      ensures Filed(p', h)
    {
      assert h != v.tx.hash ==> Filed(p, h);
    }
  }

  lemma {:induction false} ReplaceBacked(m: Index, byHash: map<TxHash, VTx>, v: VTx, prev: TxHash)
    requires Backed(m, byHash) && v.tx.hash !in byHash && Holds(m, v.tx.sender, v.tx.nonce, prev)
    ensures Backed(Put(m, v.tx.sender, v.tx.nonce, v.tx.hash), (byHash - {prev})[v.tx.hash := v])
  {
  }

  lemma {:induction false} PutSame(m: Index, s: Address, n: nat, h: TxHash, s': Address, n': nat)
    requires At(m, s, n) && At(Put(m, s, n, h), s', n')
    ensures At(m, s', n')
  {
    assert Holds(Put(m, s, n, h), s', n', Put(m, s, n, h)[s'][n']);
  }

  lemma {:induction false} ReplaceAgrees(p: Pool, v: VTx, prev: TxHash)
    requires Agree(p) && v.tx.hash !in p.byHash && Holds(p.pending, v.tx.sender, v.tx.nonce, prev)
    requires prev in p.byHash
    ensures Agree(Replace(p, v, prev))
  {
    var p', t := Replace(p, v, prev), v.tx;
    ReplaceFiles(p, v, prev);
    ReplaceBacked(p.pending, p.byHash, v, prev);
    OtherBacked(p.queued, p.byHash, prev);
    AddBacked(p.queued, p.byHash - {prev}, v);
    forall s, n | At(p'.pending, s, n)
      ensures At(p.pending, s, n)
    {
      PutSame(p.pending, t.sender, t.nonce, t.hash, s, n);
    }
  }

  lemma {:induction false} ReplaceHeadFrame(p: Pool, v: VTx, prev: TxHash, s: Address, hd: Head)
    requires Agree(p) && v.tx.hash !in p.byHash && Holds(p.pending, v.tx.sender, v.tx.nonce, prev)
    requires prev in p.byHash && IsHead(p, s, hd)
    requires s != v.tx.sender || !IsLowest(p.pending[s], v.tx.nonce)
    ensures IsHead(Replace(p, v, prev), s, hd)
  {
    var p' := Replace(p, v, prev);
    var n :| HeadAt(p, s, n, hd);
    assert Holds(p.pending, s, n, p.pending[s][n]);
    assert HeadAt(p', s, n, hd);
  }

  lemma {:induction false} ReplaceHeads(p: Pool, v: VTx, prev: TxHash)
    requires Agree(p) && v.tx.hash !in p.byHash && Holds(p.pending, v.tx.sender, v.tx.nonce, prev)
    requires prev in p.byHash
    ensures HeadsTrue(p) ==> HeadsTrue(Replace(p, v, prev))
    ensures HeadsComplete(p) ==> HeadsComplete(Replace(p, v, prev))
  {
    var p', s, n := Replace(p, v, prev), v.tx.sender, v.tx.nonce;
    var w := p.byHash[prev];
    if IsLowest(p.pending[s], n) {
      assert HeadAt(p, s, n, Head(w.tx.fee, w.receivedAt, s));
      assert HeadAt(p', s, n, HeadFor(v));
    }
    if HeadsTrue(p) {
      forall hd | hd in p'.heads
        ensures IsHead(p', hd.sender, hd)
      {
        if hd != HeadFor(v) || hd in p.heads {
          ReplaceOtherHead(p, v, prev, hd);
        }
      }
    }
    if HeadsComplete(p) {
      forall s' | s' in p'.pending
        ensures HasHead(p', s')
      {
        assert HasHead(p, s');
        if s' == s && IsLowest(p.pending[s], n) {
          assert HeadFor(v) in p'.heads;
        } else {
          var hd :| hd in p.heads && IsHead(p, s', hd);
          ReplaceHeadFrame(p, v, prev, s', hd);
        }
      }
    }
  }

  lemma {:induction false} ReplaceOtherHead(p: Pool, v: VTx, prev: TxHash, hd: Head)
    requires Agree(p) && v.tx.hash !in p.byHash && Holds(p.pending, v.tx.sender, v.tx.nonce, prev)
    requires prev in p.byHash && HeadsTrue(p) && hd in p.heads && hd in Replace(p, v, prev).heads
    ensures IsHead(Replace(p, v, prev), hd.sender, hd)
  {
    var s, n, w := v.tx.sender, v.tx.nonce, p.byHash[prev];
    if hd.sender == s && IsLowest(p.pending[s], n) {
      assert HeadAt(p, s, n, Head(w.tx.fee, w.receivedAt, s));
      HeadUnique(p, s, hd, Head(w.tx.fee, w.receivedAt, s));
      assert HeadAt(Replace(p, v, prev), s, n, HeadFor(v));
    } else {
      ReplaceHeadFrame(p, v, prev, hd.sender, hd);
    }
  }

  lemma {:induction false} ReplaceCounts(p: Pool, v: VTx, prev: TxHash)
    requires Counted(p) && PendingBelow(p) && v.tx.hash !in p.byHash && prev in p.byHash
    requires At(p.pending, v.tx.sender, v.tx.nonce)
    ensures Counted(Replace(p, v, prev)) && PendingBelow(Replace(p, v, prev))
  {
    var p', t := Replace(p, v, prev), v.tx;
    assert p'.byHash.Keys == p.byHash.Keys - {prev} + {t.hash};
    forall s, n | At(p'.pending, s, n)
      ensures At(p.pending, s, n)
    {
      PutSame(p.pending, t.sender, t.nonce, t.hash, s, n);
    }
  }

  lemma {:induction false} ReplaceInv(p: Pool, v: VTx, prev: TxHash)
    requires Inv(p) && v.tx.hash !in p.byHash && Holds(p.pending, v.tx.sender, v.tx.nonce, prev)
    requires prev in p.byHash
    ensures Inv(Replace(p, v, prev)) && (HeadsComplete(p) ==> HeadsComplete(Replace(p, v, prev)))
  {
    ReplaceAgrees(p, v, prev);
    ReplaceHeads(p, v, prev);
    ReplaceCounts(p, v, prev);
    forall s
      ensures NotDue(Replace(p, v, prev), s) && Limited(Replace(p, v, prev), s)
    {
      QueuesKept(p, Replace(p, v, prev), s);
    }
  }

  lemma {:induction false} AddOldInv(p: Pool, v: VTx)
    requires Inv(p) && v.tx.hash !in p.byHash
    ensures Inv(AddOld(p, v).0)
    ensures HeadsComplete(p) ==> HeadsComplete(AddOld(p, v).0)
  {
    var s, n := v.tx.sender, v.tx.nonce;
    if AddOld(p, v).1.AddedPending? {
      assert Holds(p.pending, s, n, p.pending[s][n]);
      ReplaceInv(p, v, p.pending[s][n]);
    }
  }

  lemma {:induction false} MeetQueues(p: Pool, s: Address, base: nat, s': Address)
    requires p.queued.Keys <= p.nonces.Keys && NotDue(p, s') && Limited(p, s')
    ensures NotDue(Meet(p, s, base), s') && Limited(Meet(p, s, base), s')
  {
  }

  lemma {:induction false} MeetInv(p: Pool, s: Address, base: nat)
    requires Inv(p)
    ensures Inv(Meet(p, s, base)) && s in Meet(p, s, base).nonces
    ensures HeadsComplete(p) ==> HeadsComplete(Meet(p, s, base))
  {
    SameIndexes(p, Meet(p, s, base));
    HeadsKept(p, Meet(p, s, base));
    forall s'
      ensures NotDue(Meet(p, s, base), s') && Limited(Meet(p, s, base), s')
    {
      MeetQueues(p, s, base, s');
    }
  }

  lemma {:induction false} VacatedInv(p: Pool, v: VTx)
    requires Inv(p)
    ensures var q := Vacated(p, v);
      && Inv(q) && q.nonces == p.nonces && !At(q.queued, v.tx.sender, v.tx.nonce)
      && q.byHash.Keys <= p.byHash.Keys && (HeadsComplete(p) ==> HeadsComplete(q))
  {
    var s, n := v.tx.sender, v.tx.nonce;
    if At(p.queued, s, n) {
      RemoveInv(p, p.queued[s][n]);
      DropQueuedIsRemove(p, s, n);
    }
  }

  lemma {:induction false} TryAddInv(p: Pool, v: VTx, base: nat)
    requires Inv(p)
    ensures Inv(TryAdd(p, v, base).0)
    ensures HeadsComplete(p) ==> HeadsComplete(TryAdd(p, v, base).0)
  {
    if v.tx.hash !in p.byHash {
      var p0 := Meet(p, v.tx.sender, base);
      MeetInv(p, v.tx.sender, base);
      if v.tx.nonce < Expected(p0, v.tx.sender) {
        AddOldInv(p0, v);
      } else {
        VacatedInv(p0, v);
        AddNewInv(Vacated(p0, v), v);
      }
    }
  }

  // ---- A new base nonce ----

  /** What is left of a pool without the pending transactions of one sender. */
  ghost predicate WithoutPending(p: Pool, s: Address, p': Pool) {
    && p'.pending == p.pending - {s} && p'.queued == p.queued
    && (forall h :: h in p'.byHash <==> h in p.byHash && !(exists n :: Holds(p.pending, s, n, h)))
    && (forall h :: h in p'.byHash ==> p'.byHash[h] == p.byHash[h])
  }

  /** Below a nonce that exceeds the expected one lie all pending transactions. */
  lemma {:induction false} AllBelow(p: Pool, s: Address, base: nat)
    requires Agree(p) && PendingBelow(p) && base > Expected(p, s) && s in p.pending
    ensures From(p.pending[s], base) == map[]
    ensures var hs := HeldAt(p.byHash, p.pending[s], NoncesBelow(p.pending[s], base));
      forall h :: h in hs <==> exists n :: Holds(p.pending, s, n, h)
  {
    forall n | n in p.pending[s]
      ensures n < base && Holds(p.pending, s, n, p.pending[s][n])
    {
      assert At(p.pending, s, n);
    }
  }

  lemma {:induction false} DiscardCounts(p: Pool, s: Address, base: nat)
    requires Counted(p)
    ensures Counted(DiscardBelow(p, s, base))
  {
    if s in p.pending {
      var gone := HeldAt(p.byHash, p.pending[s], NoncesBelow(p.pending[s], base));
      SubsetSize(gone, p.byHash.Keys);
      assert (p.byHash - gone).Keys == p.byHash.Keys - gone;
    }
  }

  lemma {:induction false} DiscardIsWithout(p: Pool, s: Address, base: nat)
    requires Agree(p) && PendingBelow(p) && base > Expected(p, s)
    ensures WithoutPending(p, s, DiscardBelow(p, s, base))
    ensures DiscardBelow(p, s, base).heads == p.heads - CurrentHead(p, s)
  {
    if s in p.pending {
      AllBelow(p, s, base);
      assert s !in Discarded(p, s, base).pending;
      assert CurrentHead(Discarded(p, s, base), s) == {};
    }
  }

  lemma {:induction false} WithoutFiles(p: Pool, s: Address, p': Pool)
    requires Agree(p) && WithoutPending(p, s, p')
    ensures forall h :: h in p'.byHash ==> Filed(p', h)
  {
    forall h | h in p'.byHash
      ensures Filed(p', h)
    {
      assert Filed(p, h);
    }
  }

  lemma {:induction false} WithoutBacked(p: Pool, s: Address, p': Pool)
    requires Agree(p) && WithoutPending(p, s, p')
    ensures Backed(p'.pending, p'.byHash) && Backed(p'.queued, p'.byHash)
  {
    forall s', n, h | Holds(p'.pending, s', n, h)
      ensures h in p'.byHash && p'.byHash[h].tx.sender == s' && p'.byHash[h].tx.nonce == n
    {
      assert Holds(p.pending, s', n, h);
    }
    forall s', n, h | Holds(p'.queued, s', n, h)
      ensures h in p'.byHash && p'.byHash[h].tx.sender == s' && p'.byHash[h].tx.nonce == n
    {
      assert Holds(p.queued, s', n, h);
    }
  }

  lemma {:induction false} WithoutAgrees(p: Pool, s: Address, p': Pool)
    requires Agree(p) && WithoutPending(p, s, p')
    ensures Agree(p')
  {
    WithoutFiles(p, s, p');
    WithoutBacked(p, s, p');
  }

  lemma {:induction false} WithoutHeads(p: Pool, s: Address, p': Pool)
    requires Agree(p) && HeadsTrue(p) && WithoutPending(p, s, p') && p'.heads == p.heads - CurrentHead(p, s)
    ensures HeadsTrue(p')
    ensures HeadsComplete(p) ==> HeadsComplete(p')
    ensures forall hd :: hd in p'.heads ==> hd.sender != s
  {
    forall s', hd | s' != s && IsHead(p, s', hd)
      ensures IsHead(p', s', hd)
    {
      var n :| HeadAt(p, s', n, hd);
      assert Holds(p.pending, s', n, p.pending[s'][n]);
      assert HeadAt(p', s', n, hd);
    }
    if HeadsComplete(p) {
      forall s' | s' in p'.pending
        ensures HasHead(p', s')
      {
        assert HasHead(p, s');
        var hd :| hd in p.heads && IsHead(p, s', hd);
        assert hd.sender == s';
      }
    }
  }

  lemma {:induction false} WithoutNonces(p: Pool, s: Address, p': Pool, base: nat)
    requires PendingBelow(p) && WithoutPending(p, s, p') && p'.nonces == p.nonces[s := base]
    ensures PendingBelow(p')
    ensures forall s' :: s' != s && NotDue(p, s') ==> NotDue(p', s')
    ensures forall s' :: Limited(p, s') ==> Limited(p', s')
  {
    forall s', n | At(p'.pending, s', n)
      ensures s' in p'.nonces && n < p'.nonces[s']
    {
      assert At(p.pending, s', n);
    }
  }

  lemma {:induction false} MovedIsSound(p: Pool, s: Address, base: nat)
    requires Inv(p) && base > Expected(p, s)
    ensures var p' := Moved(p, s, base);
      && Sound(p', s) && Limited(p', s) && p'.queued == p.queued && s !in p'.pending
      && (forall hd :: hd in p'.heads ==> hd.sender != s)
      && (HeadsComplete(p) ==> HeadsComplete(p'))
  {
    var p' := Moved(p, s, base);
    DiscardIsWithout(p, s, base);
    DiscardCounts(p, s, base);
    WithoutAgrees(p, s, p');
    WithoutHeads(p, s, p');
    WithoutNonces(p, s, p', base);
  }

  lemma {:induction false} UpdateNonceInv(p: Pool, s: Address, base: nat)
    requires Inv(p)
    ensures Inv(UpdateNonce(p, s, base))
  {
    if base > Expected(p, s) {
      MovedIsSound(p, s, base);
      PromoteInv(Moved(p, s, base), s);
    }
  }

  lemma {:induction false} PromoteFrame(p: Pool, s: Address)
    ensures Promote(p, s).heads == p.heads
    ensures p.pending.Keys <= Promote(p, s).pending.Keys
    decreases QueuedCount(p, s)
  {
    if At(p.queued, s, Expected(p, s)) {
      PromoteFrame(PromoteOne(p, s), s);
    }
  }

  /** Promotion for a sender without an entry leaves it without one. */
  lemma {:induction false} PromotedWithoutHead(p: Pool, s: Address)
    requires HeadsComplete(p) && forall hd :: hd in p.heads ==> hd.sender != s
    ensures HeadsComplete(Promote(p, s)) <==> !At(p.queued, s, Expected(p, s))
  {
    if At(p.queued, s, Expected(p, s)) {
      var p' := Promote(p, s);
      PromoteFrame(PromoteOne(p, s), s);
      assert s in p'.pending;
      forall hd | hd in p'.heads
        ensures !IsHead(p', s, hd)
      {
      }
      assert !HasHead(p', s);
    }
  }

  /** A nonce update keeps the fee index complete exactly when nothing is queued for the
      new nonce: a promoted transaction of a sender without pending ones gets no entry. */
  lemma {:induction false} UpdateKeepsHeadsExactly(p: Pool, s: Address, base: nat)
    requires Inv(p) && HeadsComplete(p)
    ensures HeadsComplete(UpdateNonce(p, s, base)) <==> base <= Expected(p, s) || !At(p.queued, s, base)
  {
    if base > Expected(p, s) {
      MovedIsSound(p, s, base);
      PromotedWithoutHead(Moved(p, s, base), s);
    }
  }

  lemma {:induction false} ClearInv(p: Pool)
    requires Inv(p)
    ensures Inv(Clear(p)) && HeadsComplete(Clear(p))
  {
  }
}
