/** What the operations of the pool do, told on its indexes: the laws that their definitions
    have to satisfy. */
module PoolLaws {
  import opened FiniteSets
  import opened PoolState
  import opened PoolInvariants
  import opened PoolOutcomes

  // ---- Removing ----

  /** Only transaction `h` is gone from index `m`. */
  ghost predicate Without(m: Index, m': Index, h: TxHash) {
    forall s, n, x :: Holds(m', s, n, x) <==> Holds(m, s, n, x) && x != h
  }

  /** Removing takes the transaction out of the hash table and of its index, and counts it. */
  lemma {:induction false} RemovesExactly(p: Pool, h: TxHash)
    requires Agree(p) && h in p.byHash
    ensures var p' := Remove(p, h);
      && p'.byHash == p.byHash - {h} && Without(p.pending, p'.pending, h) && Without(p.queued, p'.queued, h)
      && p' == p.(byHash := p'.byHash, pending := p'.pending, queued := p'.queued, heads := p'.heads,
                  removed := p.removed + 1)
  {
    RemoveIsUnfile(p, h);
    var t := p.byHash[h].tx;
    assert Filed(p, h);
    forall s, n | Holds(p.pending, s, n, h) || Holds(p.queued, s, n, h)
      ensures s == t.sender && n == t.nonce
    {
    }
  }

  /** `p'` lacks exactly the transactions `gone` of `p`, and has counted them as removed. */
  ghost predicate Lacks(p: Pool, gone: set<TxHash>, p': Pool) {
    && p'.byHash == p.byHash - gone && p'.nonces == p.nonces && p'.added == p.added && p'.capacity == p.capacity
    && p'.removed - p.removed == |p.byHash| - |p'.byHash|
  }

  lemma {:induction false} LacksOne(p: Pool, h: TxHash, p1: Pool)
    requires h in p.byHash && p1.byHash == p.byHash - {h} && p1.removed == p.removed + 1
    requires p1.nonces == p.nonces && p1.added == p.added && p1.capacity == p.capacity
    ensures Lacks(p, {h}, p1)
  {
    DroppedKey(p.byHash, h);
  }

  lemma {:induction false} LacksNone(p: Pool, h: TxHash)
    requires h !in p.byHash
    ensures Lacks(p, {h}, p)
  {
    assert p.byHash - {h} == p.byHash;
  }

  lemma {:induction false} RemovesAtMostOne(p: Pool, h: TxHash, p1: Pool)
    requires Agree(p) && p1 == Remove(p, h)
    ensures Lacks(p, {h}, p1)
  {
    if h in p.byHash {
      RemovesExactly(p, h);
      LacksOne(p, h, p1);
    } else {
      LacksNone(p, h);
    }
  }

  function Members(hs: seq<TxHash>): set<TxHash> {
    set h | h in hs
  }

  lemma {:induction false} MembersStep(hs: seq<TxHash>)
    requires hs != []
    ensures Members(hs) == {hs[0]} + Members(hs[1..])
  {
  }

  lemma {:induction false} LacksBoth(p: Pool, a: set<TxHash>, p1: Pool, b: set<TxHash>, p': Pool)
    requires Lacks(p, a, p1) && Lacks(p1, b, p')
    ensures Lacks(p, a + b, p')
  {
    MinusBoth(p.byHash, a, b);
  }

  lemma {:induction false} MinusBoth<K, V>(m: map<K, V>, a: set<K>, b: set<K>)
    ensures m - a - b == m - (a + b)
  {
  }

  /** Removing a list removes its members, whatever their order and repetitions. */
  lemma {:induction false} RemovesListed(p: Pool, hs: seq<TxHash>, p': Pool)
    requires Agree(p) && p' == RemoveAll(p, hs)
    ensures Lacks(p, Members(hs), p')
    decreases |hs|
  {
    if hs == [] {
      assert p.byHash - Members(hs) == p.byHash;
    } else {
      var p1 := Remove(p, hs[0]);
      RemovesAtMostOne(p, hs[0], p1);
      RemoveAgrees(p, hs[0]);
      RemovesListed(p1, hs[1..], p');
      LacksBoth(p, {hs[0]}, p1, Members(hs[1..]), p');
      MembersStep(hs);
    }
  }

  /** Clearing empties the indexes and keeps the counters. */
  lemma {:induction false} ClearsExactly(p: Pool)
    ensures var p' := Clear(p);
      && p'.byHash == map[] && p'.pending == map[] && p'.queued == map[] && p'.heads == {} && p'.nonces == map[]
      && p'.added == p.added && p'.removed == p.removed && p'.capacity == p.capacity
  {
  }

  // ---- Eviction ----

  /** `h` is the first pending transaction of its sender, with its entry in the fee index,
      and no entry pays less, or as much and arrived later, or as much at the same time for a
      greater address. */
  ghost predicate Cheapest(p: Pool, h: TxHash) {
    && h in p.byHash
    && var v := p.byHash[h];
       && Holds(p.pending, v.tx.sender, v.tx.nonce, h)
       && (forall n :: At(p.pending, v.tx.sender, n) ==> v.tx.nonce <= n)
       && Head(v.tx.fee, v.receivedAt, v.tx.sender) in p.heads
       && forall hd :: hd in p.heads ==>
            && v.tx.fee <= hd.fee
            && (v.tx.fee == hd.fee ==> hd.receivedAt <= v.receivedAt)
            && (v.tx.fee == hd.fee && v.receivedAt == hd.receivedAt ==> hd.sender <= v.tx.sender)
  }

  lemma {:induction false} VictimIsCheapest(p: Pool, h: TxHash)
    requires Agree(p) && HeadsTrue(p) && IsVictim(p, h)
    ensures Cheapest(p, h)
  {
    var hd, n: nat :| IsLast(p.heads, hd) && hd.sender in p.pending
                 && IsLowest(p.pending[hd.sender], n) && h == p.pending[hd.sender][n];
    assert Holds(p.pending, hd.sender, n, h);
    var k: nat :| HeadAt(p, hd.sender, k, hd);
    assert k == n;
  }

  /** Eviction removes exactly the cheapest transaction of the fee index, if there is one. */
  lemma {:induction false} EvictsExactly(p: Pool)
    requires Agree(p) && HeadsTrue(p)
    ensures p.heads == {} ==> EvictLowest(p) == p
    ensures p.heads != {} ==> exists h :: Cheapest(p, h) && EvictLowest(p) == Remove(p, h)
  {
    if p.heads == {} {
      assert forall h :: !IsVictim(p, h);
    } else {
      VictimExists(p);
      var h :| IsVictim(p, h) && EvictLowest(p) == Remove(p, h);
      VictimIsCheapest(p, h);
    }
  }

  lemma {:induction false} CheapestUnique(p: Pool, h: TxHash, k: TxHash)
    requires Cheapest(p, h) && Cheapest(p, k)
    ensures h == k
  {
    var v, w := p.byHash[h], p.byHash[k];
    assert Head(v.tx.fee, v.receivedAt, v.tx.sender) == Head(w.tx.fee, w.receivedAt, w.tx.sender);
    assert v.tx.nonce == w.tx.nonce;
  }

  lemma {:induction false} RemovesOnly(p: Pool, h: TxHash, p': Pool, x: TxHash)
    requires Agree(p) && h in p.byHash && p' == Remove(p, h) && x in p.byHash
    ensures (x in p'.byHash <==> x != h) && (x in p'.byHash ==> p'.byHash[x] == p.byHash[x])
  {
    RemovesExactly(p, h);
  }

  /** So eviction loses exactly that one. */
  lemma {:induction false} EvictsOnlyCheapest(p: Pool, x: TxHash)
    requires Agree(p) && HeadsTrue(p) && x in p.byHash
    ensures x in EvictLowest(p).byHash <==> !Cheapest(p, x)
    ensures x in EvictLowest(p).byHash ==> EvictLowest(p).byHash[x] == p.byHash[x]
  {
    EvictsExactly(p);
    if p.heads != {} {
      var h :| Cheapest(p, h) && EvictLowest(p) == Remove(p, h);
      RemovesOnly(p, h, EvictLowest(p), x);
      if Cheapest(p, x) {
        CheapestUnique(p, h, x);
      }
    }
  }

  // ---- The queue limit ----

  /** What the limit of 64 leaves of the queue of `s`: the lowest nonces. */
  ghost predicate Trimmed(p: Pool, s: Address, p': Pool) {
    && (forall s', n, x :: Holds(p'.queued, s', n, x) ==> Holds(p.queued, s', n, x))
    && (forall s', n, x :: Holds(p.queued, s', n, x) && s' != s ==> Holds(p'.queued, s', n, x))
    && (forall n, m :: At(p'.queued, s, n) && At(p.queued, s, m) && !At(p'.queued, s, m) ==> n < m)
    && QueuedCount(p', s) == (if QueuedCount(p, s) <= 64 then QueuedCount(p, s) else 64)
    && (forall x :: x in p'.byHash <==> x in p.byHash && !Cut(p, s, p', x))
    && (forall x :: x in p'.byHash ==> p'.byHash[x] == p.byHash[x])
    && p' == p.(queued := p'.queued, byHash := p'.byHash, removed := p'.removed)
    && p'.removed == p.removed + QueuedCount(p, s) - QueuedCount(p', s)
  }

  /** Transaction `x` was queued, and its nonce is gone from the queue. */
  ghost predicate Cut(p: Pool, s: Address, p': Pool, x: TxHash) {
    exists n :: Holds(p.queued, s, n, x) && !At(p'.queued, s, n)
  }

  lemma {:induction false} DropsOne(p: Pool, s: Address, m: nat, p1: Pool)
    requires Backed(p.queued, p.byHash) && At(p.queued, s, m) && p1 == DropQueued(p, s, m)
    ensures Backed(p1.queued, p1.byHash) && QueuedCount(p1, s) == QueuedCount(p, s) - 1
    ensures forall s', n, x :: Holds(p1.queued, s', n, x) <==> Holds(p.queued, s', n, x) && !(s' == s && n == m)
    ensures p1.byHash == p.byHash - {p.queued[s][m]}
    ensures p1 == p.(queued := p1.queued, byHash := p1.byHash, removed := p.removed + 1)
  {
    QueueShrinks(p, s, m);
    forall s', n, x | Holds(p1.queued, s', n, x)
      ensures x in p1.byHash && p1.byHash[x].tx.sender == s' && p1.byHash[x].tx.nonce == n
    {
      assert Holds(p.queued, s', n, x) && Holds(p.queued, s, m, p.queued[s][m]);
    }
  }

  lemma {:induction false} StillAt(m: Index, m': Index, s: Address, n: nat)
    requires (forall x :: Holds(m', s, n, x) ==> Holds(m, s, n, x)) && At(m', s, n)
    ensures At(m, s, n)
  {
    assert Holds(m', s, n, m'[s][n]);
  }

  lemma {:induction false} TrimsOneMore(p: Pool, s: Address, m: nat, p1: Pool, p': Pool)
    requires Backed(p.queued, p.byHash) && s in p.queued && IsHighest(p.queued[s], m) && p1 == DropQueued(p, s, m)
    requires QueuedCount(p, s) > 64 && Trimmed(p1, s, p')
    ensures Trimmed(p, s, p')
  {
    DropsOne(p, s, m, p1);
    forall n: nat | At(p.queued, s, n) && n != m
      ensures At(p1.queued, s, n) && n < m
    {
      assert Holds(p.queued, s, n, p.queued[s][n]);
      assert Holds(p1.queued, s, n, p.queued[s][n]);
    }
    forall n: nat | At(p'.queued, s, n)
      ensures n < m
    {
      StillAt(p1.queued, p'.queued, s, n);
      StillAt(p.queued, p1.queued, s, n);
    }
    TrimmedHashes(p, s, m, p1, p');
  }

  lemma {:induction false} TrimmedHashes(p: Pool, s: Address, m: nat, p1: Pool, p': Pool)
    requires Backed(p.queued, p.byHash) && At(p.queued, s, m) && p1 == DropQueued(p, s, m) && Trimmed(p1, s, p')
    requires !At(p'.queued, s, m)
    ensures forall x :: x in p'.byHash <==> x in p.byHash && !Cut(p, s, p', x)
  {
    DropsOne(p, s, m, p1);
    var h := p.queued[s][m];
    assert Holds(p.queued, s, m, h);
    forall x | x != h
      ensures Cut(p, s, p', x) <==> Cut(p1, s, p', x)
    {
      forall n: nat
        ensures Holds(p.queued, s, n, x) <==> Holds(p1.queued, s, n, x)
      {
      }
    }
  }

  /** The limit drops the highest nonces of a sender until 64 are left, and nothing else. */
  lemma {:induction false} TrimsExactly(p: Pool, s: Address)
    requires Backed(p.queued, p.byHash)
    ensures Trimmed(p, s, Trim(p, s))
    decreases QueuedCount(p, s)
  {
    if QueuedCount(p, s) > 64 {
      var m := HighestOf(p.queued[s].Keys);
      TrimStep(p, s, m);
      DropsOne(p, s, m, DropQueued(p, s, m));
      TrimsExactly(DropQueued(p, s, m), s);
      TrimsOneMore(p, s, m, DropQueued(p, s, m), Trim(p, s));
    }
  }

  // ---- Promotion ----

  /** Promotion changes nothing but the two indexes and the sender's expected nonce. */
  lemma {:induction false} PromotesOnly(p: Pool, s: Address)
    ensures var p' := Promote(p, s);
      && p' == p.(pending := p'.pending, queued := p'.queued, nonces := p'.nonces)
      && (forall s' :: s' != s ==>
            (s' in p'.nonces <==> s' in p.nonces) && (s' in p.nonces ==> p'.nonces[s'] == p.nonces[s']))
    decreases QueuedCount(p, s)
  {
    if At(p.queued, s, Expected(p, s)) {
      DroppedKey(p.queued[s], Expected(p, s));
      PromotesOnly(PromoteOne(p, s), s);
    }
  }

  // ---- The answer of an addition ----

  /** A fee of at least 110 percent of the other, rounded down. */
  predicate Outbids(fee: nat, other: nat) {
    110 * other < 100 * (fee + 1)
  }

  lemma {:induction false} OutbidsExactly(fee: nat, other: nat)
    ensures fee < MinReplacementFee(other) <==> !Outbids(fee, other)
  {
  }

  /** The nonce that the pool expects of the sender: the one it knows, or else `base`. */
  function Due(p: Pool, s: Address, base: nat): nat {
    if s in p.nonces then p.nonces[s] else base
  }

  /** Transaction `x` stands at the nonce of `v`, and `v` pays enough for its place. */
  ghost predicate BeatenAt(p: Pool, m: Index, v: VTx, x: TxHash) {
    Holds(m, v.tx.sender, v.tx.nonce, x) && x in p.byHash && Outbids(v.tx.fee, p.byHash[x].tx.fee)
  }

  ghost predicate UnbeatenAt(p: Pool, m: Index, v: VTx, x: TxHash) {
    Holds(m, v.tx.sender, v.tx.nonce, x) && x in p.byHash && !Outbids(v.tx.fee, p.byHash[x].tx.fee)
  }

  /** The size of the pool without a queued transaction at the nonce of `v`. */
  ghost function SizeFor(p: Pool, v: VTx): int {
    |p.byHash| - if At(p.queued, v.tx.sender, v.tx.nonce) then 1 else 0
  }

  /** The pool is full, and every entry of its fee index pays at least as much. */
  ghost predicate NoRoom(p: Pool, v: VTx) {
    SizeFor(p, v) >= p.capacity && p.heads != {} && forall hd :: hd in p.heads ==> v.tx.fee <= hd.fee
  }

  /** The transaction is known; or its nonce is past and it does not pay for the place of a
      pending one; or it does not pay for the place of a queued one; or there is no room. */
  ghost predicate Turned(p: Pool, v: VTx, base: nat) {
    var due := Due(p, v.tx.sender, base);
    || v.tx.hash in p.byHash
    || (v.tx.nonce < due && !exists x :: BeatenAt(p, p.pending, v, x))
    || (v.tx.nonce >= due && ((exists x :: UnbeatenAt(p, p.queued, v, x)) || NoRoom(p, v)))
  }

  lemma {:induction false} LastPaysLeast(heads: set<Head>, fee: nat)
    ensures (exists hd :: IsLast(heads, hd) && fee <= hd.fee) <==>
      heads != {} && forall hd :: hd in heads ==> fee <= hd.fee
  {
    if heads != {} {
      var a := LastOf(heads);
    }
  }

  lemma {:induction false} TooCheapExactly(p: Pool, v: VTx)
    requires Backed(p.queued, p.byHash)
    ensures TooCheap(p, v) <==> exists x :: UnbeatenAt(p, p.queued, v, x)
  {
    var s, n := v.tx.sender, v.tx.nonce;
    if At(p.queued, s, n) {
      var x := p.queued[s][n];
      assert Holds(p.queued, s, n, x);
      OutbidsExactly(v.tx.fee, p.byHash[x].tx.fee);
      assert TooCheap(p, v) <==> UnbeatenAt(p, p.queued, v, x);
    }
  }

  lemma {:induction false} OldAnswer(p: Pool, v: VTx)
    requires Backed(p.pending, p.byHash)
    ensures AddOld(p, v).1 == if exists x :: BeatenAt(p, p.pending, v, x) then AddedPending else Rejected
  {
    var s, n := v.tx.sender, v.tx.nonce;
    if At(p.pending, s, n) {
      var x := p.pending[s][n];
      assert Holds(p.pending, s, n, x);
      OutbidsExactly(v.tx.fee, p.byHash[x].tx.fee);
      assert BeatenAt(p, p.pending, v, x) <==> v.tx.fee >= MinReplacementFee(p.byHash[x].tx.fee);
    }
  }

  lemma {:induction false} VacatedIsSmaller(p: Pool, v: VTx)
    requires Inv(p)
    ensures var q := Vacated(p, v);
      |q.byHash| == SizeFor(p, v) && q.heads == p.heads && q.capacity == p.capacity && q.nonces == p.nonces
  {
    VacatedFrame(p, v);
    if At(p.queued, v.tx.sender, v.tx.nonce) {
      VacatedSize(p, v);
      RemoveIsSmaller(p, p.queued[v.tx.sender][v.tx.nonce], Vacated(p, v));
    }
  }

  lemma {:induction false} EvictedNonces(p: Pool)
    ensures EvictLowest(p).nonces == p.nonces
  {
  }

  lemma {:induction false} PlaceAnswer(p: Pool, v: VTx)
    ensures Place(p, v).1 == if v.tx.nonce == Expected(p, v.tx.sender) then AddedPending else AddedQueued
  {
  }

  lemma {:induction false} AddNewAnswer(p: Pool, v: VTx)
    ensures AddNew(p, v).1 ==
      if |p.byHash| >= p.capacity && p.heads != {} && forall hd :: hd in p.heads ==> v.tx.fee <= hd.fee then Rejected
      else if v.tx.nonce == Expected(p, v.tx.sender) then AddedPending else AddedQueued
  {
    LastPaysLeast(p.heads, v.tx.fee);
    EvictedNonces(p);
    PlaceAnswer(p, v);
    PlaceAnswer(EvictLowest(p), v);
  }

  lemma {:induction false} NewAnswer(p: Pool, v: VTx)
    requires Inv(p)
    ensures AddNew(Vacated(p, v), v).1 ==
      if NoRoom(p, v) then Rejected else if v.tx.nonce == Expected(p, v.tx.sender) then AddedPending else AddedQueued
  {
    VacatedIsSmaller(p, v);
    AddNewAnswer(Vacated(p, v), v);
  }

  /** The answer to a transaction that is not known, of a sender that is. */
  lemma {:induction false} KnownSenderAnswer(p: Pool, v: VTx)
    requires Inv(p) && v.tx.hash !in p.byHash && v.tx.sender in p.nonces
    ensures TryAdd(p, v, 0).1 ==
      if Turned(p, v, 0) then Rejected
      else if v.tx.nonce <= p.nonces[v.tx.sender] then AddedPending else AddedQueued
  {
    if v.tx.nonce < p.nonces[v.tx.sender] {
      OldAnswer(p, v);
    } else {
      TooCheapExactly(p, v);
      NewAnswer(p, v);
    }
  }

  lemma {:induction false} MeetFirst(p: Pool, v: VTx, base: nat)
    ensures var q := Meet(p, v.tx.sender, base);
      && v.tx.sender in q.nonces && q.nonces[v.tx.sender] == Due(p, v.tx.sender, base)
      && TryAdd(q, v, 0).1 == TryAdd(p, v, base).1
      && (v.tx.hash !in p.byHash ==> TryAdd(q, v, 0) == TryAdd(p, v, base))
      && (Turned(q, v, 0) <==> Turned(p, v, base))
  {
    var q := Meet(p, v.tx.sender, base);
    assert Meet(q, v.tx.sender, 0) == q;
    assert forall x :: BeatenAt(q, q.pending, v, x) <==> BeatenAt(p, p.pending, v, x);
    assert forall x :: UnbeatenAt(q, q.queued, v, x) <==> UnbeatenAt(p, p.queued, v, x);
  }

  /** The answer of an addition, from the pool before it. */
  lemma {:induction false} AnswersExactly(p: Pool, v: VTx, base: nat)
    requires Inv(p)
    ensures TryAdd(p, v, base).1 ==
      if Turned(p, v, base) then Rejected
      else if v.tx.nonce <= Due(p, v.tx.sender, base) then AddedPending else AddedQueued
  {
    if v.tx.hash !in p.byHash {
      MeetInv(p, v.tx.sender, base);
      MeetFirst(p, v, base);
      KnownSenderAnswer(Meet(p, v.tx.sender, base), v);
    }
  }

  // ---- What an addition costs ----

  /** The queue of the sender is full, and `x` has its highest nonce, above that of `v`. */
  ghost predicate PushedOut(p: Pool, v: VTx, x: TxHash) {
    && QueuedCount(p, v.tx.sender) == 64
    && exists m :: Holds(p.queued, v.tx.sender, m, x) && v.tx.nonce < m
                   && forall k :: At(p.queued, v.tx.sender, k) ==> k <= m
  }

  lemma {:induction false} PushedOutIs(p: Pool, v: VTx, m: nat, x: TxHash)
    requires !At(p.queued, v.tx.sender, v.tx.nonce) && QueuedCount(p, v.tx.sender) == 64
    requires IsHighest(AddQueued(p, v).queued[v.tx.sender], m) && x in p.byHash && Backed(p.queued, p.byHash)
    requires v.tx.hash !in p.byHash
    ensures PushedOut(p, v, x) <==> AddQueued(p, v).queued[v.tx.sender][m] == x
  {
    var s, q := v.tx.sender, AddQueued(p, v);
    assert Holds(q.queued, s, m, q.queued[s][m]) && Holds(q.queued, s, v.tx.nonce, v.tx.hash);
    forall k: nat | At(p.queued, s, k)
      ensures k in q.queued[s] && k <= m
    {
      assert Holds(p.queued, s, k, p.queued[s][k]);
      assert Holds(q.queued, s, k, p.queued[s][k]);
    }
    if q.queued[s][m] == x {
      assert Holds(p.queued, s, m, x) && v.tx.nonce < m;
    }
    if PushedOut(p, v, x) {
      var k :| Holds(p.queued, s, k, x) && v.tx.nonce < k && forall j :: At(p.queued, s, j) ==> j <= k;
      if m != v.tx.nonce {
        assert Holds(p.queued, s, m, q.queued[s][m]);
      }
    }
  }

  /** What placing `v` loses: the transaction that it pushes out of the queue. */
  lemma {:induction false} PlaceLoses(p: Pool, v: VTx, x: TxHash)
    requires Backed(p.queued, p.byHash) && Limited(p, v.tx.sender) && x in p.byHash
    requires v.tx.hash !in p.byHash && !At(p.queued, v.tx.sender, v.tx.nonce)
    ensures var p' := Place(p, v).0;
      && (x !in p'.byHash <==> v.tx.nonce != Expected(p, v.tx.sender) && PushedOut(p, v, x))
      && (x in p'.byHash ==> p'.byHash[x] == p.byHash[x])
  {
    if v.tx.nonce == Expected(p, v.tx.sender) {
      PromotesOnly(AddPending(p, v), v.tx.sender);
    } else {
      var m := TrimOnce(p, v);
      if QueuedCount(p, v.tx.sender) == 64 {
        PushedOutIs(p, v, m, x);
      }
    }
  }

  /** Eviction does not touch the queue. */
  lemma {:induction false} SamePushedOut(p: Pool, p': Pool, v: VTx, x: TxHash)
    requires p'.queued == p.queued
    ensures PushedOut(p', v, x) <==> PushedOut(p, v, x)
  {
  }

  lemma {:induction false} AddNewLoses(p: Pool, v: VTx, x: TxHash)
    requires Inv(p) && x in p.byHash && v.tx.hash !in p.byHash && !At(p.queued, v.tx.sender, v.tx.nonce)
    requires !AddNew(p, v).1.Rejected?
    ensures var p' := AddNew(p, v).0;
      && (x !in p'.byHash <==>
            (|p.byHash| >= p.capacity && Cheapest(p, x))
            || (v.tx.nonce != Expected(p, v.tx.sender) && PushedOut(p, v, x)))
      && (x in p'.byHash ==> p'.byHash[x] == p.byHash[x])
  {
    assert Limited(p, v.tx.sender);
    if |p.byHash| < p.capacity {
      PlaceLoses(p, v, x);
    } else {
      var e := EvictLowest(p);
      EvictInv(p);
      assert Limited(e, v.tx.sender);
      EvictsOnlyCheapest(p, x);
      SamePushedOut(p, e, v, x);
      if x in e.byHash {
        PlaceLoses(e, v, x);
      } else {
        NothingComesBack(e, v, x);
      }
    }
  }

  lemma {:induction false} NothingComesBack(p: Pool, v: VTx, x: TxHash)
    requires x !in p.byHash && x != v.tx.hash
    ensures x !in Place(p, v).0.byHash
  {
    PromotesOnly(AddPending(p, v), v.tx.sender);
    TrimHashes(AddQueued(p, v), v.tx.sender);
  }

  lemma {:induction false} TrimHashes(p: Pool, s: Address)
    ensures Trim(p, s).byHash.Keys <= p.byHash.Keys
    decreases QueuedCount(p, s)
  {
    if QueuedCount(p, s) > MAX_QUEUED_PER_SENDER {
      var n := HighestOf(p.queued[s].Keys);
      TrimStep(p, s, n);
      QueueShrinks(p, s, n);
      TrimHashes(DropQueued(p, s, n), s);
    }
  }

  lemma {:induction false} VacatedLoses(p: Pool, v: VTx, x: TxHash)
    requires Agree(p) && x in p.byHash
    ensures var q := Vacated(p, v);
      && (x !in q.byHash <==> Holds(p.queued, v.tx.sender, v.tx.nonce, x))
      && (x in q.byHash ==> q.byHash[x] == p.byHash[x]) && q.pending == p.pending
      && !At(q.queued, v.tx.sender, v.tx.nonce) && q.byHash.Keys <= p.byHash.Keys
  {
    var s, n := v.tx.sender, v.tx.nonce;
    if At(p.queued, s, n) {
      var h := p.queued[s][n];
      assert Holds(p.queued, s, n, h);
      DropQueuedIsRemove(p, s, n);
      DropShrinks(p.queued, s, n);
    }
  }

  lemma {:induction false} SameCheapest(p: Pool, q: Pool, x: TxHash)
    requires q.pending == p.pending && q.heads == p.heads
    requires x in p.byHash && x in q.byHash && q.byHash[x] == p.byHash[x]
    ensures Cheapest(q, x) <==> Cheapest(p, x)
  {
  }

  /** A vacated place leaves room in the queue. */
  lemma {:induction false} VacatedPushes(p: Pool, v: VTx, x: TxHash)
    requires Agree(p) && Limited(p, v.tx.sender)
    ensures PushedOut(Vacated(p, v), v, x) <==> !At(p.queued, v.tx.sender, v.tx.nonce) && PushedOut(p, v, x)
  {
    var s, n := v.tx.sender, v.tx.nonce;
    if At(p.queued, s, n) {
      DropQueuedIsRemove(p, s, n);
      QueueShrinks(p, s, n);
    }
  }

  /** What the pool loses by an addition: the transaction whose place is taken, the cheapest
      entry of the fee index if the pool is full, and what is pushed out of the queue. */
  ghost predicate Costs(p: Pool, v: VTx, base: nat, x: TxHash) {
    var due := Due(p, v.tx.sender, base);
    && v.tx.hash !in p.byHash
    && (|| (v.tx.nonce < due && BeatenAt(p, p.pending, v, x))
        || (v.tx.nonce >= due && BeatenAt(p, p.queued, v, x))
        || (v.tx.nonce >= due && !Turned(p, v, base) && SizeFor(p, v) >= p.capacity && Cheapest(p, x))
        || (v.tx.nonce > due && !Turned(p, v, base) && !At(p.queued, v.tx.sender, v.tx.nonce) && PushedOut(p, v, x)))
  }

  lemma {:induction false} OldCosts(p: Pool, v: VTx, x: TxHash)
    requires Backed(p.pending, p.byHash) && x in p.byHash && v.tx.hash !in p.byHash
    ensures var p' := AddOld(p, v).0;
      (x !in p'.byHash <==> BeatenAt(p, p.pending, v, x)) && (x in p'.byHash ==> p'.byHash[x] == p.byHash[x])
  {
    var s, n := v.tx.sender, v.tx.nonce;
    if At(p.pending, s, n) {
      assert Holds(p.pending, s, n, p.pending[s][n]);
      OutbidsExactly(v.tx.fee, p.byHash[p.pending[s][n]].tx.fee);
    }
  }

  lemma {:induction false} NewCosts(p: Pool, v: VTx, x: TxHash)
    requires Inv(p) && x in p.byHash && v.tx.hash !in p.byHash
    ensures var (p', r) := AddNew(Vacated(p, v), v);
      && (x !in p'.byHash <==>
            || Holds(p.queued, v.tx.sender, v.tx.nonce, x)
            || (!r.Rejected? && SizeFor(p, v) >= p.capacity && Cheapest(p, x))
            || (!r.Rejected? && v.tx.nonce != Expected(p, v.tx.sender) && !At(p.queued, v.tx.sender, v.tx.nonce)
                && PushedOut(p, v, x)))
      && (x in p'.byHash ==> p'.byHash[x] == p.byHash[x])
  {
    var q := Vacated(p, v);
    VacatedInv(p, v);
    VacatedLoses(p, v, x);
    VacatedIsSmaller(p, v);
    AddNewRejects(q, v);
    assert Limited(p, v.tx.sender);
    if AddNew(q, v).1.Rejected? {
    } else if x in q.byHash {
      AddNewLoses(q, v, x);
      SameCheapest(p, q, x);
      VacatedPushes(p, v, x);
    } else {
      EvictInv(q);
      NothingReturns(q, v, x);
    }
  }

  lemma {:induction false} NothingReturns(p: Pool, v: VTx, x: TxHash)
    requires x !in p.byHash && x !in EvictLowest(p).byHash && x != v.tx.hash
    ensures x !in AddNew(p, v).0.byHash
  {
    NothingComesBack(p, v, x);
    NothingComesBack(EvictLowest(p), v, x);
  }

  lemma {:induction false} KnownSenderCosts(p: Pool, v: VTx, x: TxHash)
    requires Inv(p) && x in p.byHash && v.tx.hash !in p.byHash && v.tx.sender in p.nonces
    ensures var p' := TryAdd(p, v, 0).0;
      (x !in p'.byHash <==> Costs(p, v, 0, x)) && (x in p'.byHash ==> p'.byHash[x] == p.byHash[x])
  {
    KnownSenderAnswer(p, v);
    if v.tx.nonce < p.nonces[v.tx.sender] {
      OldCosts(p, v, x);
    } else {
      TooCheapExactly(p, v);
      if !TooCheap(p, v) {
        NewCosts(p, v, x);
        assert Holds(p.queued, v.tx.sender, v.tx.nonce, x) ==> !UnbeatenAt(p, p.queued, v, x);
      }
    }
  }

  lemma {:induction false} MeetCosts(p: Pool, v: VTx, base: nat, x: TxHash)
    ensures Costs(Meet(p, v.tx.sender, base), v, 0, x) <==> Costs(p, v, base, x)
  {
    var q := Meet(p, v.tx.sender, base);
    MeetFirst(p, v, base);
    assert BeatenAt(q, q.pending, v, x) <==> BeatenAt(p, p.pending, v, x);
    assert BeatenAt(q, q.queued, v, x) <==> BeatenAt(p, p.queued, v, x);
    assert Cheapest(q, x) <==> Cheapest(p, x);
    assert PushedOut(q, v, x) <==> PushedOut(p, v, x);
  }

  /** An addition loses exactly these transactions, and changes no other. */
  lemma {:induction false} LosesExactly(p: Pool, v: VTx, base: nat, x: TxHash)
    requires Inv(p) && x in p.byHash
    ensures var p' := TryAdd(p, v, base).0;
      (x !in p'.byHash <==> Costs(p, v, base, x)) && (x in p'.byHash ==> p'.byHash[x] == p.byHash[x])
  {
    if v.tx.hash !in p.byHash {
      MeetInv(p, v.tx.sender, base);
      MeetFirst(p, v, base);
      MeetCosts(p, v, base, x);
      KnownSenderCosts(Meet(p, v.tx.sender, base), v, x);
    }
  }

  // ---- Expected nonces ----

  /** From nonce `e` up to `e'`, and no further, all are queued. */
  ghost predicate QueuedUpTo(p: Pool, s: Address, e: nat, e': nat) {
    e <= e' && !At(p.queued, s, e') && forall m :: e <= m < e' ==> At(p.queued, s, m)
  }

  ghost predicate OthersExpect(p: Pool, s: Address, p': Pool) {
    forall s' :: s' != s ==> (s' in p'.nonces <==> s' in p.nonces) && (s' in p.nonces ==> p'.nonces[s'] == p.nonces[s'])
  }

  lemma {:induction false} TrimNonces(p: Pool, s: Address)
    ensures Trim(p, s).nonces == p.nonces
    decreases QueuedCount(p, s)
  {
    if QueuedCount(p, s) > MAX_QUEUED_PER_SENDER {
      var n := HighestOf(p.queued[s].Keys);
      TrimStep(p, s, n);
      QueueShrinks(p, s, n);
      TrimNonces(DropQueued(p, s, n), s);
    }
  }

  lemma {:induction false} PlaceExpects(p: Pool, v: VTx)
    requires v.tx.sender in p.nonces
    ensures var p' := Place(p, v).0;
      && OthersExpect(p, v.tx.sender, p') && v.tx.sender in p'.nonces
      && (if v.tx.nonce == p.nonces[v.tx.sender]
          then QueuedUpTo(p, v.tx.sender, v.tx.nonce + 1, p'.nonces[v.tx.sender])
          else p'.nonces[v.tx.sender] == p.nonces[v.tx.sender])
  {
    if v.tx.nonce == p.nonces[v.tx.sender] {
      PromotesOnly(AddPending(p, v), v.tx.sender);
      PromotesLongestRun(AddPending(p, v), v.tx.sender);
    } else {
      TrimNonces(AddQueued(p, v), v.tx.sender);
    }
  }

  lemma {:induction false} AddNewExpects(p: Pool, v: VTx)
    requires Inv(p) && v.tx.sender in p.nonces
    ensures var (p', r) := AddNew(p, v);
      && OthersExpect(p, v.tx.sender, p') && v.tx.sender in p'.nonces
      && (if v.tx.nonce == p.nonces[v.tx.sender] && !r.Rejected?
          then QueuedUpTo(p, v.tx.sender, v.tx.nonce + 1, p'.nonces[v.tx.sender])
          else p'.nonces[v.tx.sender] == p.nonces[v.tx.sender])
  {
    AddNewAnswer(p, v);
    EvictInv(p);
    PlaceExpects(p, v);
    PlaceExpects(EvictLowest(p), v);
  }

  lemma {:induction false} KnownSenderExpects(p: Pool, v: VTx)
    requires Inv(p) && v.tx.hash !in p.byHash && v.tx.sender in p.nonces
    ensures var (p', r) := TryAdd(p, v, 0);
      && OthersExpect(p, v.tx.sender, p') && v.tx.sender in p'.nonces
      && (if v.tx.nonce == p.nonces[v.tx.sender] && !r.Rejected?
          then QueuedUpTo(p, v.tx.sender, v.tx.nonce + 1, p'.nonces[v.tx.sender])
          else p'.nonces[v.tx.sender] == p.nonces[v.tx.sender])
  {
    if v.tx.nonce >= p.nonces[v.tx.sender] && !TooCheap(p, v) {
      var q := Vacated(p, v);
      VacatedInv(p, v);
      VacatedIsSmaller(p, v);
      AddNewExpects(q, v);
      assert NotDue(p, v.tx.sender);
    }
  }

  /** An addition makes its sender known with nonce `base`; a pending one at the expected
      nonce moves it past the transactions queued next, and nothing else moves it. */
  lemma {:induction false} ExpectsExactly(p: Pool, v: VTx, base: nat)
    requires Inv(p) && v.tx.hash !in p.byHash
    ensures var (p', r) := TryAdd(p, v, base); var due := Due(p, v.tx.sender, base);
      && OthersExpect(p, v.tx.sender, p') && v.tx.sender in p'.nonces
      && (if v.tx.nonce == due && !r.Rejected?
          then QueuedUpTo(p, v.tx.sender, v.tx.nonce + 1, p'.nonces[v.tx.sender])
          else p'.nonces[v.tx.sender] == due)
  {
    MeetInv(p, v.tx.sender, base);
    MeetFirst(p, v, base);
    KnownSenderExpects(Meet(p, v.tx.sender, base), v);
  }

  // ---- A new base nonce ----

  /** The pool after `s` has moved to nonce `base`: its pending transactions are gone, and
      those queued from `base` on without a gap are pending. */
  ghost predicate MovedOn(p: Pool, s: Address, base: nat, p': Pool) {
    && s in p'.nonces && QueuedUpTo(p, s, base, p'.nonces[s]) && OthersExpect(p, s, p')
    && (forall x :: x in p'.byHash <==> x in p.byHash && !exists n :: Holds(p.pending, s, n, x))
    && (forall x :: x in p'.byHash ==> p'.byHash[x] == p.byHash[x])
    && (forall s', n: nat, x :: Holds(p'.pending, s', n, x) <==>
          if s' == s then base <= n < p'.nonces[s] && Holds(p.queued, s, n, x) else Holds(p.pending, s', n, x))
    && (forall s', n: nat, x :: Holds(p'.queued, s', n, x) <==>
          Holds(p.queued, s', n, x) && !(s' == s && base <= n < p'.nonces[s]))
  }

  lemma {:induction false} MovedFields(p: Pool, s: Address, base: nat, q: Pool)
    requires Agree(p) && PendingBelow(p) && base > Expected(p, s) && q == Moved(p, s, base)
    ensures WithoutPending(p, s, q) && q.nonces == p.nonces[s := base]
  {
    DiscardIsWithout(p, s, base);
  }

  lemma {:induction false} PromotedFields(p: Pool, s: Address, base: nat, q: Pool, p': Pool)
    requires WithoutPending(p, s, q) && q.nonces == p.nonces[s := base] && p' == Promote(q, s)
    ensures MovedOn(p, s, base, p')
  {
    PromotesLongestRun(q, s);
    PromotesOnly(q, s);
    OnlyRunIsPending(p, s, base, q, p');
  }

  lemma {:induction false} OnlyRunIsPending(p: Pool, s: Address, base: nat, q: Pool, p': Pool)
    requires q.pending == p.pending - {s} && q.queued == p.queued && s in p'.nonces
    requires PendingRunMoved(q, p', s, base, p'.nonces[s])
    ensures forall s', n: nat, x :: Holds(p'.pending, s', n, x) <==>
      if s' == s then base <= n < p'.nonces[s] && Holds(p.queued, s, n, x) else Holds(p.pending, s', n, x)
  {
  }

  /** A nonce update does nothing unless the nonce exceeds the expected one. */
  lemma {:induction false} UpdatesExactly(p: Pool, s: Address, base: nat)
    requires Inv(p)
    ensures var p', expected := UpdateNonce(p, s, base), Due(p, s, 0);
      if base <= expected then p' == p else MovedOn(p, s, base, p')
  {
    if base > Due(p, s, 0) {
      MovedFields(p, s, base, Moved(p, s, base));
      PromotedFields(p, s, base, Moved(p, s, base), UpdateNonce(p, s, base));
    }
  }
}
