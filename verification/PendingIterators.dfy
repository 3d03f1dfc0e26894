/** Iteration over the pending transactions for block building. */
module PendingIterators {
  import opened Wrappers
  import opened FiniteSets
  import opened PoolState
  import opened PoolInvariants
  import opened FeeMerge
  import opened TransactionPools

  /** The heap holds the head of every lane that is not empty. */
  ghost predicate HeapMatches(heap: set<Head>, lanes: Lanes) {
    forall hd :: hd in heap <==>
      hd.sender in lanes && lanes[hd.sender] != [] && hd == HeadFor(lanes[hd.sender][0])
  }

  ghost predicate OwnLanes(lanes: Lanes) {
    forall s :: s in lanes ==> OwnLane(lanes[s], s)
  }

  lemma {:induction false} LanesAreOwn(p: Pool, senders: set<Address>, current: map<Address, nat>)
    requires Backed(p.pending, p.byHash) && senders <= current.Keys
    ensures OwnLanes(LanesAt(p, senders, current))
  {
    forall s | s in senders
      ensures OwnLane(RunFrom(p, s, current[s]), s)
    {
      RunIsLongest(p, s, current[s]);
    }
  }

  /** The first entry of the heap is the best lane. */
  lemma {:induction false} FirstIsBest(heap: set<Head>, lanes: Lanes, hd: Head)
    requires HeapMatches(heap, lanes) && OwnLanes(lanes) && IsFirst(heap, hd)
    ensures Best(lanes, hd.sender)
  {
    forall s | s in lanes && s != hd.sender && lanes[s] != []
      ensures Before(HeadFor(lanes[hd.sender][0]), HeadFor(lanes[s][0]))
    {
      assert HeadFor(lanes[s][0]) in heap;
    }
  }

  lemma {:induction false} HeapAdvances(heap: set<Head>, lanes: Lanes, hd: Head)
    requires HeapMatches(heap, lanes) && OwnLanes(lanes) && hd in heap
    ensures var rest := lanes[hd.sender][1..];
      HeapMatches(heap - {hd} + (if rest == [] then {} else {HeadFor(rest[0])}), lanes[hd.sender := rest])
  {
  }

  lemma {:induction false} LanesAdvance(p: Pool, senders: set<Address>, current: map<Address, nat>, s: Address)
    requires senders <= current.Keys && s in senders && RunFrom(p, s, current[s]) != []
    ensures LanesAt(p, senders, current[s := current[s] + 1])
            == LanesAt(p, senders, current)[s := RunFrom(p, s, current[s])[1..]]
  {
  }

  /** Initially the fee index of the pool matches the lanes of the senders in it. */
  lemma {:induction false} InitialHeap(p: Pool, current: map<Address, nat>)
    requires Agree(p) && HeadsTrue(p) && IsLowestOf(p, current)
    ensures HeadSenders(p) <= current.Keys
    ensures HeapMatches(p.heads, LanesAt(p, HeadSenders(p), current))
  {
    forall hd | hd in p.heads
      ensures hd.sender in p.pending
      ensures var lane := RunFrom(p, hd.sender, current[hd.sender]); lane != [] && hd == HeadFor(lane[0])
    {
      var n :| HeadAt(p, hd.sender, n, hd);
      assert n == current[hd.sender];
      assert Holds(p.pending, hd.sender, n, p.pending[hd.sender][n]);
    }
  }

  lemma {:induction false} InitialLanes(p: Pool, current: map<Address, nat>)
    requires HeadsTrue(p) && IsLowestOf(p, current) && HeadSenders(p) <= current.Keys
    ensures LanesAt(p, HeadSenders(p), current) == PoolLanes(p)
  {
    forall s | s in HeadSenders(p)
      ensures RunFrom(p, s, current[s]) == LongestRun(p, s)
    {
      StartsFromLowest(p, s, current[s]);
    }
  }

  /** The slots that iteration has still to visit. */
  ghost function SlotsLeft(p: Pool, current: map<Address, nat>): set<(Address, nat)> {
    set s, n | s in p.pending && n in p.pending[s] && s in current && n >= current[s] :: (s, n)
  }

  lemma {:induction false} FewerSlots(p: Pool, current: map<Address, nat>, s: Address)
    requires s in current && At(p.pending, s, current[s])
    ensures SlotsLeft(p, current[s := current[s] + 1]) < SlotsLeft(p, current)
  {
    assert (s, current[s]) in SlotsLeft(p, current);
  }

  /** Taking the head of a lane: what is taken, and what the heap and the lanes are then. */
  lemma {:induction false} StepIsMatched(
    p: Pool, senders: set<Address>, current: map<Address, nat>, heap: set<Head>, hd: Head)
    requires Backed(p.pending, p.byHash) && senders <= current.Keys && hd in heap
    requires HeapMatches(heap, LanesAt(p, senders, current))
    ensures var s, lanes := hd.sender, LanesAt(p, senders, current);
      && s in senders && lanes[s] != [] && At(p.pending, s, current[s]) && p.pending[s][current[s]] in p.byHash
      && lanes[s][0] == p.byHash[p.pending[s][current[s]]] && lanes[s][0].tx.sender == s
      && LanesAt(p, senders, current[s := current[s] + 1]) == lanes[s := lanes[s][1..]]
      && HeapMatches(heap - {hd} + HeadsAt(p, s, current[s] + 1), lanes[s := lanes[s][1..]])
      && SlotsLeft(p, current[s := current[s] + 1]) < SlotsLeft(p, current)
  {
    var s, lanes := hd.sender, LanesAt(p, senders, current);
    LanesAreOwn(p, senders, current);
    HeapAdvances(heap, lanes, hd);
    LanesAdvance(p, senders, current, s);
    FewerSlots(p, current, s);
    NextHead(p, s, current[s]);
  }

  /** The head at one nonce of a sender, if it is pending. */
  ghost function HeadsAt(p: Pool, s: Address, n: nat): set<Head> {
    if At(p.pending, s, n) && p.pending[s][n] in p.byHash
    then var v := p.byHash[p.pending[s][n]]; {Head(v.tx.fee, v.receivedAt, s)} else {}
  }

  lemma {:induction false} NextHead(p: Pool, s: Address, n: nat)
    requires Backed(p.pending, p.byHash) && RunFrom(p, s, n) != []
    ensures var rest := RunFrom(p, s, n)[1..];
      rest == RunFrom(p, s, n + 1) && HeadsAt(p, s, n + 1) == if rest == [] then {} else {HeadFor(rest[0])}
  {
    assert RunFrom(p, s, n)[1..] == RunFrom(p, s, n + 1);
    if At(p.pending, s, n + 1) {
      assert Holds(p.pending, s, n + 1, p.pending[s][n + 1]);
    }
  }

  method FirstHead(heads: set<Head>) returns (a: Head)
    requires heads != {}
    ensures IsFirst(heads, a)
    ensures forall b :: b in heads ==>
      && a.fee >= b.fee && (a.fee == b.fee ==> a.receivedAt <= b.receivedAt)
      && (a.fee == b.fee && a.receivedAt == b.receivedAt && a != b ==> a.sender < b.sender)
  {
    a :| a in heads;
    var rest := heads - {a};
    while rest != {}
      invariant a in heads && rest <= heads - {a}
      invariant forall b :: b in heads && b !in rest && b != a ==> Before(a, b)
      decreases |rest|
    {
      var x :| x in rest;
      rest := rest - {x};
      if Before(x, a) {
        a := x;
      }
    }
  }

  /** The lowest nonce of every sender. */
  method LowestNonces(m: Index) returns (found: map<Address, nat>)
    requires Filled(m)
    ensures found.Keys == m.Keys && forall s :: s in m ==> IsLowest(m[s], found[s])
  {
    found := map[];
    var rest := m.Keys;
    while rest != {}
      invariant rest <= m.Keys && found.Keys == m.Keys - rest
      invariant forall s :: s in found ==> IsLowest(m[s], found[s])
      decreases |rest|
    {
      var s :| s in rest;
      rest := rest - {s};
      var n := Least(m[s].Keys);
      found := found[s := n];
    }
  }

  class PendingIter {
    const pool: TransactionPool
    var heap: set<Head>
    var current: map<Address, nat>
    ghost const senders: set<Address>

    ghost function Left(): Lanes
      requires senders <= current.Keys
      reads this, pool
    {
      LanesAt(pool.State(), senders, current)
    }

    ghost predicate Valid()
      reads this, pool
    {
      Backed(pool.pending, pool.byHash) && senders <= current.Keys && HeapMatches(heap, Left())
    }

    constructor (pool: TransactionPool)
      requires pool.Valid()
      ensures Valid() && this.pool == pool && Left() == PoolLanes(pool.State())
    {
      this.pool := pool;
      heap := pool.heads;
      var found := LowestNonces(pool.pending);
      current := found;
      senders := HeadSenders(pool.State());
      InitialHeap(pool.State(), found);
      InitialLanes(pool.State(), found);
    }

    /** Gives the best of the senders' next transactions, until none is left. */
    method Next() returns (r: Option<Tx>)
      requires Valid()
      modifies this
      ensures Valid()
      ensures r.None? <==> forall s :: s in old(Left()) ==> old(Left())[s] == []
      ensures r.None? ==> Left() == old(Left())
      ensures r.Some? ==>
        var s, lanes := r.value.sender, old(Left());
        && Best(lanes, s) && r.value == lanes[s][0].tx && Left() == lanes[s := lanes[s][1..]]
        && forall s' :: s' in lanes && s' != s && lanes[s'] != [] ==> PaysBest(lanes[s][0], lanes[s'][0])
      ensures r.Some? ==> SlotsLeft(pool.State(), current) < old(SlotsLeft(pool.State(), current))
    {
      ghost var p, lanes := pool.State(), Left();
      LanesAreOwn(p, senders, current);
      if heap == {} {
        forall s | s in lanes
          ensures lanes[s] == []
        {
          assert lanes[s] != [] ==> HeadFor(lanes[s][0]) in heap;
        }
        return None;
      }
      var head := FirstHead(heap);
      FirstIsBest(heap, lanes, head);
      BestPaysBest(lanes, head.sender);
      StepIsMatched(p, senders, current, heap, head);
      var tx := Take(head);
      return Some(tx);
    }

    /** Takes the current transaction of the head's sender, and puts the sender back with
        its next one, if any. */
    method Take(head: Head) returns (tx: Tx)
      requires head.sender in current && At(pool.pending, head.sender, current[head.sender])
      requires pool.pending[head.sender][current[head.sender]] in pool.byHash
      modifies this
      ensures var s := head.sender; var n := old(current)[s];
        && tx == pool.byHash[pool.pending[s][n]].tx && current == old(current)[s := n + 1]
        && heap == old(heap) - {head} + HeadsAt(pool.State(), s, n + 1)
    {
      var s := head.sender;
      var n := current[s];
      tx := pool.byHash[pool.pending[s][n]].tx;
      heap, current := heap - {head}, current[s := n + 1];
      if n + 1 in pool.pending[s] && pool.pending[s][n + 1] in pool.byHash {
        var next := pool.byHash[pool.pending[s][n + 1]];
        heap := heap + {Head(next.tx.fee, next.receivedAt, s)};
      }
    }
  }

  lemma {:induction false} MergeStep(start: Lanes, lanes: Lanes, out: seq<Tx>, tx: Tx)
    requires forall rest :: IsMerge(lanes, rest) ==> IsMerge(start, out + rest)
    requires Best(lanes, tx.sender) && tx == lanes[tx.sender][0].tx
    ensures forall rest :: IsMerge(lanes[tx.sender := lanes[tx.sender][1..]], rest) ==> IsMerge(start, out + [tx] + rest)
  {
    forall rest | IsMerge(lanes[tx.sender := lanes[tx.sender][1..]], rest)
      ensures IsMerge(start, out + [tx] + rest)
    {
      assert ([tx] + rest)[1..] == rest;
      assert IsMerge(lanes, [tx] + rest);
      assert out + ([tx] + rest) == out + [tx] + rest;
    }
  }

  /** Iterating to the end gives the merge of the pool's lanes. */
  method IterPending(pool: TransactionPool) returns (out: seq<Tx>)
    requires pool.Valid()
    ensures IsMerge(PoolLanes(pool.State()), out)
    ensures forall i, k :: 0 <= i < k < |out| && NextOfSender(out, i, k) ==>
      && out[i].hash in pool.byHash && out[k].hash in pool.byHash
      && PaysBest(pool.byHash[out[i].hash], pool.byHash[out[k].hash])
  {
    var iter := new PendingIter(pool);
    ghost var start := PoolLanes(pool.State());
    out := [];
    assert forall rest: seq<Tx> :: [] + rest == rest;
    while true
      invariant iter.Valid() && iter.pool == pool
      invariant forall rest :: IsMerge(iter.Left(), rest) ==> IsMerge(start, out + rest)
      decreases SlotsLeft(pool.State(), iter.current)
    {
      ghost var lanes := iter.Left();
      var r := iter.Next();
      if r.None? {
        break;
      }
      MergeStep(start, lanes, out, r.value);
      out := out + [r.value];
    }
    assert out + [] == out;
    forall i, k | 0 <= i < k < |out| && NextOfSender(out, i, k)
      ensures out[i].hash in pool.byHash && out[k].hash in pool.byHash
      ensures PaysBest(pool.byHash[out[i].hash], pool.byHash[out[k].hash])
    {
      PoolMergePaysBest(pool.State(), out, i, k);
    }
  }
}
