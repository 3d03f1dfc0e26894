/** The transaction pool, updated in place. */
module TransactionPools {
  import opened Wrappers
  import opened FiniteSets
  import opened PoolState
  import opened PoolInvariants

  lemma {:induction false} SameHead(p: Pool, p': Pool, s: Address)
    requires p'.pending == p.pending && p'.byHash == p.byHash
    ensures CurrentHead(p', s) == CurrentHead(p, s)
  {
    HeadFrame(p, p', s);
    HeadFrame(p', p, s);
  }

  lemma {:induction false} IsCurrentHead(p: Pool, s: Address, n: nat, hd: Head)
    requires HeadAt(p, s, n, hd)
    ensures CurrentHead(p, s) == {hd}
  {
    forall b | b in CurrentHead(p, s)
      ensures b == hd
    {
      HeadUnique(p, s, b, hd);
    }
  }

  lemma {:induction false} NoCurrentHead(p: Pool, s: Address)
    requires s in p.pending ==> forall n :: IsLowest(p.pending[s], n) ==> p.pending[s][n] !in p.byHash
    ensures CurrentHead(p, s) == {}
  {
  }

  lemma {:induction false} OneMoreHeld(byHash: map<TxHash, VTx>, mine: map<nat, TxHash>, done: set<nat>, n: nat)
    requires n in mine && n !in done && mine[n] in byHash && byHash[mine[n]].tx.nonce == n
    ensures HeldAt(byHash, mine, done + {n}) == HeldAt(byHash, mine, done) + {mine[n]}
    ensures mine[n] !in HeldAt(byHash, mine, done)
  {
  }

  /** Takes the transactions of `mine` below nonce `base` out of the hash table, and
      counts them. */
  method Forget(byHash: map<TxHash, VTx>, mine: map<nat, TxHash>, base: nat)
    returns (left: map<TxHash, VTx>, count: nat)
    requires forall n :: n in mine ==> mine[n] in byHash && byHash[mine[n]].tx.nonce == n
    ensures var gone := HeldAt(byHash, mine, NoncesBelow(mine, base));
      left == byHash - gone && count == |gone|
    ensures forall h :: h in left <==> h in byHash && !exists n: nat :: n in mine && n < base && mine[n] == h
  {
    left, count := byHash, 0;
    var nonces := NoncesBelow(mine, base);
    var rest := nonces;
    while rest != {}
      invariant rest <= nonces
      invariant left == byHash - HeldAt(byHash, mine, nonces - rest)
      invariant count == |HeldAt(byHash, mine, nonces - rest)|
      decreases |rest|
    {
      var n := Least(rest);
      OneMoreHeld(byHash, mine, nonces - rest, n);
      assert nonces - (rest - {n}) == nonces - rest + {n};
      rest := rest - {n};
      count := count + if mine[n] in left then 1 else 0;
      left := left - {mine[n]};
    }
    assert nonces - rest == nonces;
  }

  method LastHead(heads: set<Head>) returns (a: Head)
    requires heads != {}
    ensures IsLast(heads, a)
    ensures forall b :: b in heads ==>
      && a.fee <= b.fee && (a.fee == b.fee ==> b.receivedAt <= a.receivedAt)
      && (a.fee == b.fee && a.receivedAt == b.receivedAt && a != b ==> b.sender < a.sender)
  {
    a :| a in heads;
    var rest := heads - {a};
    while rest != {}
      invariant a in heads && rest <= heads - {a}
      invariant forall b :: b in heads && b !in rest && b != a ==> Before(b, a)
      decreases |rest|
    {
      var x :| x in rest;
      rest := rest - {x};
      if Before(a, x) {
        a := x;
      }
    }
  }

  method Greatest(s: set<nat>) returns (m: nat)
    requires s != {}
    ensures m in s && forall k :: k in s ==> k <= m
  {
    m :| m in s;
    var rest := s - {m};
    while rest != {}
      invariant m in s && rest <= s
      invariant forall k :: k in s && k !in rest ==> k <= m
      decreases |rest|
    {
      var x :| x in rest;
      rest := rest - {x};
      if x > m {
        m := x;
      }
    }
  }

  class TransactionPool {
    var byHash: map<TxHash, VTx>
    var pending: Index
    var heads: set<Head>
    var queued: Index
    var nonces: map<Address, nat>
    const capacity: nat
    var added: nat
    var removed: nat
    ghost var cleared: nat

    ghost function State(): Pool
      reads this
    {
      Pool(byHash, pending, heads, queued, nonces, capacity, added, removed, cleared)
    }

    ghost predicate Valid()
      reads this
    {
      Inv(State())
    }

    constructor (capacity: nat)
      ensures State() == Empty(capacity) && Valid() && HeadsComplete(State())
    {
      byHash, pending, heads, queued, nonces := map[], map[], {}, map[], map[];
      this.capacity := capacity;
      added, removed, cleared := 0, 0, 0;
    }

    /** Puts the entry for the lowest pending nonce of `s` in the fee index. */
    method InsertHead(s: Address)
      modifies this
      ensures State() == old(State()).(heads := old(heads) + CurrentHead(old(State()), s))
    {
      if s in pending && pending[s] != map[] {
        var n := Least(pending[s].Keys);
        assert forall k :: IsLowest(pending[s], k) ==> k == n;
        if pending[s][n] in byHash {
          var v := byHash[pending[s][n]];
          IsCurrentHead(State(), s, n, Head(v.tx.fee, v.receivedAt, s));
          heads := heads + {Head(v.tx.fee, v.receivedAt, s)};
          return;
        }
      }
      NoCurrentHead(State(), s);
    }

    /** Removes a pending transaction, with its entry in the fee index. */
    method RemovePending(h: TxHash)
      requires h in byHash && At(pending, byHash[h].tx.sender, byHash[h].tx.nonce)
      modifies this
      ensures State() == PoolState.Remove(old(State()), h)
    {
      ghost var p := State();
      var v := byHash[h];
      var s, n := v.tx.sender, v.tx.nonce;
      var first := Least(pending[s].Keys);
      assert IsLowest(p.pending[s], n) <==> first == n;
      byHash, removed := byHash - {h}, removed + 1;
      pending := Drop(pending, s, n);
      assert State() == Unfile(p, h);
      if s !in pending {
        heads := heads - {HeadFor(v)};
      } else if first == n {
        SameHead(State(), State().(heads := heads - {HeadFor(v)}), s);
        heads := heads - {HeadFor(v)};
        InsertHead(s);
      }
    }

    method Remove(h: TxHash) returns (r: Option<VTx>)
      modifies this
      ensures State() == PoolState.Remove(old(State()), h)
      ensures r == if h in old(byHash) then Some(old(byHash)[h]) else None
    {
      if h !in byHash {
        return None;
      }
      var v := byHash[h];
      var s, n := v.tx.sender, v.tx.nonce;
      if s in pending && n in pending[s] {
        RemovePending(h);
      } else {
        byHash, removed := byHash - {h}, removed + 1;
        if s in queued && n in queued[s] {
          queued := Drop(queued, s, n);
        }
      }
      return Some(v);
    }

    method RemoveFinalized(hs: seq<TxHash>)
      requires Valid()
      modifies this
      ensures State() == RemoveAll(old(State()), hs)
      ensures Valid() && (old(HeadsComplete(State())) ==> HeadsComplete(State()))
    {
      RemoveAllInv(State(), hs);
      for i := 0 to |hs|
        invariant RemoveAll(State(), hs[i..]) == RemoveAll(old(State()), hs)
      {
        assert hs[i..][1..] == hs[i + 1..];
        var r := Remove(hs[i]);
      }
    }

    method EvictLowestPending()
      modifies this
      ensures State() == EvictLowest(old(State()))
    {
      if heads != {} {
        var hd := LastHead(heads);
        var s := hd.sender;
        if s in pending && pending[s] != map[] {
          var n := Least(pending[s].Keys);
          assert IsVictim(State(), pending[s][n]);
          assert forall h :: IsVictim(State(), h) ==> h == pending[s][n];
          var r := Remove(pending[s][n]);
        }
      }
    }

    method Clear()
      requires Valid()
      modifies this
      ensures State() == PoolState.Clear(old(State())) && Valid() && HeadsComplete(State())
    {
      ClearInv(State());
      cleared := cleared + |byHash|;
      byHash, pending, heads, queued, nonces := map[], map[], {}, map[], map[];
    }

    /** Moves one transaction from queued to pending. */
    method PromoteNext(s: Address, e: nat)
      requires e == Expected(State(), s) && At(queued, s, e)
      modifies this
      ensures State() == PromoteOne(old(State()), s)
    {
      pending := Put(pending, s, e, queued[s][e]);
      queued := Drop(queued, s, e);
      nonces := nonces[s := e + 1];
    }

    method PromoteQueued(s: Address)
      modifies this
      ensures State() == Promote(old(State()), s)
    {
      while true
        invariant Promote(State(), s) == Promote(old(State()), s)
        decreases QueuedCount(State(), s)
      {
        var e := if s in nonces then nonces[s] else 0;
        if s !in queued || e !in queued[s] {
          break;
        }
        DroppedKey(queued[s], e);
        PromoteNext(s, e);
      }
    }

    /** Drops a queued transaction. */
    method DropNonce(s: Address, n: nat)
      requires At(queued, s, n)
      modifies this
      ensures State() == DropQueued(old(State()), s, n)
    {
      byHash, removed := byHash - {queued[s][n]}, removed + 1;
      queued := Drop(queued, s, n);
    }

    method EnforceQueuedLimit(s: Address)
      modifies this
      ensures State() == Trim(old(State()), s)
    {
      if s in queued {
        while |queued[s]| > MAX_QUEUED_PER_SENDER
          invariant s in queued && Trim(State(), s) == Trim(old(State()), s)
          decreases |queued[s]|
        {
          var n := Greatest(queued[s].Keys);
          TrimStep(State(), s, n);
          DroppedKey(queued[s], n);
          DropNonce(s, n);
        }
      }
    }

    /** Puts `v` where pending transaction `prev` was, but for the insertion in the hash
        table, which is left to the caller. */
    method PutInPlace(v: VTx, prev: TxHash)
      requires prev in byHash && At(pending, v.tx.sender, v.tx.nonce)
      modifies this
      ensures State().(byHash := byHash[v.tx.hash := v], added := added + 1) == Replace(old(State()), v, prev)
    {
      var s, n, w := v.tx.sender, v.tx.nonce, byHash[prev];
      var first := Least(pending[s].Keys);
      assert IsLowest(pending[s], n) <==> first == n;
      byHash, removed := byHash - {prev}, removed + 1;
      pending := Put(pending, s, n, v.tx.hash);
      if first == n {
        heads := heads - {Head(w.tx.fee, w.receivedAt, s)} + {HeadFor(v)};
      }
    }

    /** Takes the place of the pending transaction with the same nonce. */
    method TryReplacePending(v: VTx) returns (replaced: Option<bool>)
      modifies this
      ensures replaced == Some(true) <==> AddOld(old(State()), v).1 == AddedPending
      ensures replaced == Some(true) ==>
        State().(byHash := byHash[v.tx.hash := v], added := added + 1) == AddOld(old(State()), v).0
      ensures replaced != Some(true) ==> State() == old(State())
    {
      var s, n := v.tx.sender, v.tx.nonce;
      if s !in pending || n !in pending[s] || pending[s][n] !in byHash {
        return None;
      }
      var prev := pending[s][n];
      if v.tx.fee < MinReplacementFee(byHash[prev].tx.fee) {
        return Some(false);
      }
      PutInPlace(v, prev);
      return Some(true);
    }

    method Place(v: VTx, expected: nat) returns (r: AddResult)
      requires expected == Expected(State(), v.tx.sender)
      modifies this
      ensures (State(), r) == PoolState.Place(old(State()), v)
    {
      var s, n := v.tx.sender, v.tx.nonce;
      byHash := byHash[v.tx.hash := v];
      added := added + 1;
      if n == expected {
        if s !in pending {
          heads := heads + {HeadFor(v)};
        }
        pending := Put(pending, s, n, v.tx.hash);
        nonces := nonces[s := expected + 1];
        PromoteQueued(s);
        return AddedPending;
      } else {
        queued := Put(queued, s, n, v.tx.hash);
        EnforceQueuedLimit(s);
        return AddedQueued;
      }
    }

    /** Makes room for a transaction with a new nonce and adds it. */
    method AddNew(v: VTx, expected: nat) returns (r: AddResult)
      requires expected == Expected(State(), v.tx.sender)
      modifies this
      ensures (State(), r) == PoolState.AddNew(old(State()), v)
    {
      if |byHash| >= capacity {
        if heads != {} {
          var last := LastHead(heads);
          assert forall hd :: IsLast(heads, hd) ==> hd == last;
          if v.tx.fee <= last.fee {
            return Rejected;
          }
        }
        EvictLowestPending();
      }
      r := Place(v, expected);
    }

    /** `now` is the time of arrival. */
    method TryAdd(tx: Tx, base: nat, now: int) returns (r: AddResult)
      requires Valid()
      modifies this
      ensures (State(), r) == PoolState.TryAdd(old(State()), VTx(tx, now), base)
      ensures Valid() && (old(HeadsComplete(State())) ==> HeadsComplete(State()))
    {
      TryAddInv(State(), VTx(tx, now), base);
      r := Admit(VTx(tx, now), base);
    }

    method Admit(v: VTx, base: nat) returns (r: AddResult)
      requires Backed(queued, byHash)
      modifies this
      ensures (State(), r) == PoolState.TryAdd(old(State()), v, base)
    {
      var s, n := v.tx.sender, v.tx.nonce;
      if v.tx.hash in byHash {
        return Rejected;
      }
      if s !in nonces {
        nonces := nonces[s := base];
      }
      ghost var p0 := State();
      var expected := nonces[s];
      if n < expected {
        var replaced := TryReplacePending(v);
        if replaced == Some(true) {
          byHash := byHash[v.tx.hash := v];
          added := added + 1;
          return AddedPending;
        }
        return Rejected;
      }
      if s in queued && n in queued[s] {
        assert Holds(queued, s, n, queued[s][n]);
        if v.tx.fee < MinReplacementFee(byHash[queued[s][n]].tx.fee) {
          return Rejected;
        }
        var gone := Remove(queued[s][n]);
      }
      assert State() == Vacated(p0, v);
      r := AddNew(v, expected);
    }

    /** Takes the entry for the lowest pending nonce of `s` out of the fee index. */
    method RemoveHead(s: Address)
      modifies this
      ensures State() == old(State()).(heads := old(heads) - CurrentHead(old(State()), s))
    {
      if s in pending && pending[s] != map[] {
        var n := Least(pending[s].Keys);
        assert forall k :: IsLowest(pending[s], k) ==> k == n;
        if pending[s][n] in byHash {
          var v := byHash[pending[s][n]];
          IsCurrentHead(State(), s, n, Head(v.tx.fee, v.receivedAt, s));
          heads := heads - {Head(v.tx.fee, v.receivedAt, s)};
          return;
        }
      }
      NoCurrentHead(State(), s);
    }

    /** Keeps the pending transactions `left` of sender `s`, and its entry in the fee index. */
    method KeepPending(s: Address, left: map<nat, TxHash>)
      modifies this
      ensures var p := old(State()).(pending := if left == map[] then old(pending) - {s} else old(pending)[s := left]);
        State() == p.(heads := p.heads + CurrentHead(p, s))
    {
      if left == map[] {
        pending := pending - {s};
        NoCurrentHead(State(), s);
      } else {
        pending := pending[s := left];
        InsertHead(s);
      }
    }

    method DiscardBelow(s: Address, base: nat)
      requires Backed(pending, byHash)
      modifies this
      ensures State() == PoolState.DiscardBelow(old(State()), s, base)
    {
      if s in pending {
        ghost var p := State();
        ghost var p1, hs := Discarded(p, s, base), p.heads - CurrentHead(p, s);
        SameHead(p1, p1.(heads := hs), s);
        var mine := pending[s];
        RemoveHead(s);
        forall n | n in mine
          ensures mine[n] in byHash && byHash[mine[n]].tx.nonce == n
        {
          assert Holds(pending, s, n, mine[n]);
        }
        var left, count := Forget(byHash, mine, base);
        byHash, removed := left, removed + count;
        assert State() == p1.(heads := hs, pending := p.pending);
        KeepPending(s, From(mine, base));
      }
    }

    method UpdateSenderNonce(s: Address, base: nat)
      requires Valid()
      modifies this
      ensures State() == UpdateNonce(old(State()), s, base) && Valid()
    {
      UpdateNonceInv(State(), s, base);
      var expected := if s in nonces then nonces[s] else 0;
      if base <= expected {
        return;
      }
      DiscardBelow(s, base);
      nonces := nonces[s := base];
      PromoteQueued(s);
    }
  }
}
