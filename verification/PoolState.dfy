/** The two-part transaction pool as a value: what each operation does to the five
    indexes. */
module PoolState {

  type TxHash = nat
  type Address = nat

  datatype Tx = Tx(hash: TxHash, sender: Address, nonce: nat, fee: nat)

  /** A validated transaction: its priority is its fee. */
  datatype VTx = VTx(tx: Tx, receivedAt: int)

  /** A sender's entry in the fee-ordered index. */
  datatype Head = Head(fee: nat, receivedAt: int, sender: Address)

  datatype AddResult = AddedPending | AddedQueued | Rejected

  const MAX_QUEUED_PER_SENDER: nat := 64
  const MIN_FEE_BUMP_PERCENT: nat := 110

  function MinReplacementFee(fee: nat): nat {
    fee * MIN_FEE_BUMP_PERCENT / 100
  }

  function HeadFor(v: VTx): Head {
    Head(v.tx.fee, v.receivedAt, v.tx.sender)
  }

  /** The order of the fee index: higher fee, then earlier arrival, then smaller address. */
  predicate Before(a: Head, b: Head) {
    || a.fee > b.fee
    || (a.fee == b.fee && a.receivedAt < b.receivedAt)
    || (a.fee == b.fee && a.receivedAt == b.receivedAt && a.sender < b.sender)
  }

  ghost predicate IsFirst(heads: set<Head>, a: Head) {
    a in heads && forall b :: b in heads && b != a ==> Before(a, b)
  }

  ghost predicate IsLast(heads: set<Head>, a: Head) {
    a in heads && forall b :: b in heads && b != a ==> Before(b, a)
  }

  // ---- Transactions by sender and nonce ----

  type Index = map<Address, map<nat, TxHash>>

  predicate At(m: Index, s: Address, n: nat) {
    s in m && n in m[s]
  }

  predicate Holds(m: Index, s: Address, n: nat, h: TxHash) {
    At(m, s, n) && m[s][n] == h
  }

  ghost predicate Filled(m: Index) {
    forall s :: s in m ==> m[s] != map[]
  }

  function Put(m: Index, s: Address, n: nat, h: TxHash): (r: Index)
    ensures s in r && r[s] == (if s in m then m[s] else map[])[n := h]
    ensures r.Keys == m.Keys + {s} && forall s' :: s' in m && s' != s ==> r[s'] == m[s']
    ensures forall s', n', h' :: Holds(r, s', n', h') <==> if s' == s && n' == n then h' == h else Holds(m, s', n', h')
    ensures Filled(m) ==> Filled(r)
  {
    var nonces := if s in m then m[s] else map[];
    assert n in nonces[n := h];
    m[s := nonces[n := h]]
  }

  /** Removes one entry, and the sender with its last entry. */
  function Drop(m: Index, s: Address, n: nat): (r: Index)
    requires At(m, s, n)
    ensures s in r <==> m[s] - {n} != map[]
    ensures s in r ==> r[s] == m[s] - {n}
    ensures r.Keys + {s} == m.Keys && forall s' :: s' in r && s' != s ==> r[s'] == m[s']
    ensures forall s', n', h' :: Holds(r, s', n', h') <==> Holds(m, s', n', h') && !(s' == s && n' == n)
    ensures Filled(m) ==> Filled(r)
  {
    var left := m[s] - {n};
    if left == map[] then
      assert forall k :: k in m[s] && k != n ==> k in left;
      m - {s}
    else m[s := left]
  }

  ghost predicate IsLowest(m: map<nat, TxHash>, n: nat) {
    n in m && forall k :: k in m ==> n <= k
  }

  ghost predicate IsHighest(m: map<nat, TxHash>, n: nat) {
    n in m && forall k :: k in m ==> k <= n
  }

  // ---- The pool ----

  datatype Pool = Pool(
    byHash: map<TxHash, VTx>,
    pending: Index,
    heads: set<Head>,
    queued: Index,
    nonces: map<Address, nat>,
    capacity: nat,
    added: nat,
    removed: nat,
    cleared: nat)  // the transactions that `clear` has discarded, which the source does not count

  function Empty(capacity: nat): Pool {
    Pool(map[], map[], {}, map[], map[], capacity, 0, 0, 0)
  }

  function Expected(p: Pool, s: Address): nat {
    if s in p.nonces then p.nonces[s] else 0
  }

  /** The entry that belongs in the fee index for sender `s`, if any: that of its pending
      transaction with the lowest nonce. */
  ghost predicate IsHead(p: Pool, s: Address, hd: Head) {
    exists n :: HeadAt(p, s, n, hd)
  }

  ghost predicate HeadAt(p: Pool, s: Address, n: nat, hd: Head) {
    && s in p.pending && IsLowest(p.pending[s], n) && p.pending[s][n] in p.byHash
    && var v := p.byHash[p.pending[s][n]]; hd == Head(v.tx.fee, v.receivedAt, s)
  }

  ghost function CurrentHead(p: Pool, s: Address): (r: set<Head>)
    ensures forall hd :: hd in r <==> IsHead(p, s, hd)
  {
    if hd :| IsHead(p, s, hd) then {hd} else {}
  }

  // ---- Removing ----

  /** Takes a transaction out of the hash table and of whichever index it is in. */
  function Unfile(p: Pool, h: TxHash): Pool
    requires h in p.byHash
  {
    var t := p.byHash[h].tx;
    var p1 := p.(byHash := p.byHash - {h}, removed := p.removed + 1);
    if At(p.pending, t.sender, t.nonce) then p1.(pending := Drop(p.pending, t.sender, t.nonce))
    else if At(p.queued, t.sender, t.nonce) then p1.(queued := Drop(p.queued, t.sender, t.nonce))
    else p1
  }

  /** The removed transaction's entry in the fee index gives way to its successor's. */
  ghost function HeadsWithout(p: Pool, h: TxHash): set<Head>
    requires h in p.byHash
  {
    var p1, v := Unfile(p, h), p.byHash[h];
    var s, n := v.tx.sender, v.tx.nonce;
    if !At(p.pending, s, n) then p.heads
    else if s !in p1.pending then p.heads - {HeadFor(v)}
    else if IsLowest(p.pending[s], n) then p.heads - {HeadFor(v)} + CurrentHead(p1, s)
    else p.heads
  }

  ghost function Remove(p: Pool, h: TxHash): Pool {
    if h !in p.byHash then p else Unfile(p, h).(heads := HeadsWithout(p, h))
  }

  ghost function RemoveAll(p: Pool, hs: seq<TxHash>): Pool
    decreases |hs|
  {
    if hs == [] then p else RemoveAll(Remove(p, hs[0]), hs[1..])
  }

  /** `h` is the first pending transaction of the sender that is last in the fee index. */
  ghost predicate IsVictim(p: Pool, h: TxHash) {
    exists hd, n :: IsLast(p.heads, hd) && hd.sender in p.pending
                    && IsLowest(p.pending[hd.sender], n) && h == p.pending[hd.sender][n]
  }

  ghost function EvictLowest(p: Pool): Pool {
    if h :| IsVictim(p, h) then Remove(p, h) else p
  }

  function Clear(p: Pool): Pool {
    p.(byHash := map[], pending := map[], heads := {}, queued := map[], nonces := map[],
       cleared := p.cleared + |p.byHash|)
  }

  // ---- Promotion and the queue limit ----

  function PromoteOne(p: Pool, s: Address): Pool
    requires At(p.queued, s, Expected(p, s))
  {
    var e := Expected(p, s);
    p.(queued := Drop(p.queued, s, e), pending := Put(p.pending, s, e, p.queued[s][e]),
       nonces := p.nonces[s := e + 1])
  }

  function QueuedCount(p: Pool, s: Address): nat {
    if s in p.queued then |p.queued[s]| else 0
  }

  function Promote(p: Pool, s: Address): Pool
    decreases QueuedCount(p, s)
  {
    if At(p.queued, s, Expected(p, s)) then Promote(PromoteOne(p, s), s) else p
  }

  function DropQueued(p: Pool, s: Address, n: nat): Pool
    requires At(p.queued, s, n)
  {
    p.(queued := Drop(p.queued, s, n), byHash := p.byHash - {p.queued[s][n]}, removed := p.removed + 1)
  }

  /** Drops the highest nonces of a sender until the queue limit holds. */
  ghost function Trim(p: Pool, s: Address): Pool
    decreases QueuedCount(p, s)
  {
    if QueuedCount(p, s) <= MAX_QUEUED_PER_SENDER then p
    else if n :| IsHighest(p.queued[s], n) then Trim(DropQueued(p, s, n), s)
    else p
  }

  // ---- Adding ----

  /** A transaction for the expected nonce becomes pending, and those queued right after it. */
  function AddPending(p: Pool, v: VTx): Pool {
    var s, n, h := v.tx.sender, v.tx.nonce, v.tx.hash;
    p.(byHash := p.byHash[h := v], added := p.added + 1, pending := Put(p.pending, s, n, h),
       heads := if s in p.pending then p.heads else p.heads + {HeadFor(v)}, nonces := p.nonces[s := n + 1])
  }

  function AddQueued(p: Pool, v: VTx): Pool {
    p.(byHash := p.byHash[v.tx.hash := v], added := p.added + 1,
       queued := Put(p.queued, v.tx.sender, v.tx.nonce, v.tx.hash))
  }

  ghost function Place(p: Pool, v: VTx): (Pool, AddResult) {
    var s := v.tx.sender;
    if v.tx.nonce == Expected(p, s) then (Promote(AddPending(p, v), s), AddedPending)
    else (Trim(AddQueued(p, v), s), AddedQueued)
  }

  /** Adds a transaction with a new nonce. A full pool first evicts the last head, unless
      that one pays at least as much. */
  ghost function AddNew(p: Pool, v: VTx): (Pool, AddResult) {
    if |p.byHash| < p.capacity then Place(p, v)
    else if exists hd :: IsLast(p.heads, hd) && v.tx.fee <= hd.fee then (p, Rejected)
    else Place(EvictLowest(p), v)
  }

  /** Puts `v` in the place of pending transaction `prev`. */
  ghost function Replace(p: Pool, v: VTx, prev: TxHash): Pool
    requires prev in p.byHash && At(p.pending, v.tx.sender, v.tx.nonce)
  {
    var s, n, h := v.tx.sender, v.tx.nonce, v.tx.hash;
    var w := p.byHash[prev];
    p.(byHash := (p.byHash - {prev})[h := v], added := p.added + 1, removed := p.removed + 1,
       pending := Put(p.pending, s, n, h),
       heads := if IsLowest(p.pending[s], n)
                then p.heads - {Head(w.tx.fee, w.receivedAt, s)} + {HeadFor(v)} else p.heads)
  }

  /** A nonce below the expected one is accepted only in place of a pending transaction. */
  ghost function AddOld(p: Pool, v: VTx): (Pool, AddResult) {
    var s, n := v.tx.sender, v.tx.nonce;
    if !At(p.pending, s, n) || p.pending[s][n] !in p.byHash then (p, Rejected)
    else
      var prev := p.pending[s][n];
      if v.tx.fee < MinReplacementFee(p.byHash[prev].tx.fee) then (p, Rejected)
      else (Replace(p, v, prev), AddedPending)
  }

  /** Makes a sender known with its nonce from the chain state. */
  function Meet(p: Pool, s: Address, base: nat): Pool {
    if s in p.nonces then p else p.(nonces := p.nonces[s := base])
  }

  /** A queued transaction with the nonce of `v` stands in its way for less than the
      replacement fee. */
  predicate TooCheap(p: Pool, v: VTx) {
    At(p.queued, v.tx.sender, v.tx.nonce)
    && var prev := p.queued[v.tx.sender][v.tx.nonce];
       prev in p.byHash && v.tx.fee < MinReplacementFee(p.byHash[prev].tx.fee)
  }

  /** The pool without the queued transaction that `v` replaces. */
  ghost function Vacated(p: Pool, v: VTx): Pool {
    if At(p.queued, v.tx.sender, v.tx.nonce) then Remove(p, p.queued[v.tx.sender][v.tx.nonce]) else p
  }

  ghost function TryAdd(p: Pool, v: VTx, base: nat): (Pool, AddResult) {
    if v.tx.hash in p.byHash then (p, Rejected)
    else
      var p0 := Meet(p, v.tx.sender, base);
      if v.tx.nonce < Expected(p0, v.tx.sender) then AddOld(p0, v)
      else if TooCheap(p0, v) then (p0, Rejected)
      else AddNew(Vacated(p0, v), v)
  }

  // ---- A new base nonce ----

  /** The transactions that index `mine` holds at one of `nonces`. */
  function HeldAt(byHash: map<TxHash, VTx>, mine: map<nat, TxHash>, nonces: set<nat>): set<TxHash> {
    set h | h in byHash && byHash[h].tx.nonce in nonces && byHash[h].tx.nonce in mine && mine[byHash[h].tx.nonce] == h
  }

  function NoncesBelow(m: map<nat, TxHash>, bound: nat): set<nat> {
    set n: nat | n in m && n < bound
  }

  function From(m: map<nat, TxHash>, bound: nat): map<nat, TxHash> {
    map n: nat | n in m && n >= bound :: m[n]
  }

  /** Discards the pending transactions of `s` below `base`. */
  function Discarded(p: Pool, s: Address, base: nat): Pool
    requires s in p.pending
  {
    var gone := HeldAt(p.byHash, p.pending[s], NoncesBelow(p.pending[s], base));
    var left := From(p.pending[s], base);
    p.(byHash := p.byHash - gone, removed := p.removed + |gone|,
       pending := if left == map[] then p.pending - {s} else p.pending[s := left])
  }

  /** The sender's entry in the fee index is rebuilt from what is left. */
  ghost function DiscardBelow(p: Pool, s: Address, base: nat): Pool {
    if s !in p.pending then p
    else
      var p1 := Discarded(p, s, base);
      p1.(heads := p.heads - CurrentHead(p, s) + CurrentHead(p1, s))
  }

  /** The pool after the chain state has moved `s` to nonce `base`, before promotion. */
  ghost function Moved(p: Pool, s: Address, base: nat): Pool {
    var p1 := DiscardBelow(p, s, base);
    p1.(nonces := p1.nonces[s := base])
  }

  ghost function UpdateNonce(p: Pool, s: Address, base: nat): Pool {
    if base <= Expected(p, s) then p else Promote(Moved(p, s, base), s)
  }
}
