/** Merging the senders' runs of pending transactions by fee. */
module FeeMerge {
  import opened PoolState
  import opened PoolInvariants

  /** What each sender has left to give, in nonce order. */
  type Lanes = map<Address, seq<VTx>>

  ghost predicate Best(lanes: Lanes, s: Address) {
    && s in lanes && lanes[s] != []
    && forall s' :: s' in lanes && s' != s && lanes[s'] != [] ==> Before(HeadFor(lanes[s][0]), HeadFor(lanes[s'][0]))
  }

  /** `v` pays at least as much as `w`; on equal fees it arrived no later, and on equal
      arrival its sender has the smaller address. */
  predicate PaysBest(v: VTx, w: VTx) {
    && v.tx.fee >= w.tx.fee
    && (v.tx.fee == w.tx.fee ==> v.receivedAt <= w.receivedAt)
    && (v.tx.fee == w.tx.fee && v.receivedAt == w.receivedAt ==> v.tx.sender < w.tx.sender)
  }

  lemma {:induction false} BestPaysBest(lanes: Lanes, s: Address)
    requires Best(lanes, s)
    ensures forall s' :: s' in lanes && s' != s && lanes[s'] != [] ==> PaysBest(lanes[s][0], lanes[s'][0])
  {
  }

  /** `out` takes, as long as some sender has a transaction left, the one that comes first
      by fee, arrival and address among the senders' next ones. */
  ghost predicate IsMerge(lanes: Lanes, out: seq<Tx>)
    decreases |out|
  {
    if out == [] then forall s :: s in lanes ==> lanes[s] == []
    else
      var s := out[0].sender;
      Best(lanes, s) && out[0] == lanes[s][0].tx && IsMerge(lanes[s := lanes[s][1..]], out[1..])
  }

  /** The merge of given lanes is unique. */
  lemma {:induction false} MergeUnique(lanes: Lanes, a: seq<Tx>, b: seq<Tx>)
    requires forall s :: s in lanes ==> OwnLane(lanes[s], s)
    requires IsMerge(lanes, a) && IsMerge(lanes, b)
    ensures a == b
    decreases |a|
  {
    if a == [] || b == [] {
    } else {
      var s := a[0].sender;
      assert Best(lanes, b[0].sender);
      MergeUnique(lanes[s := lanes[s][1..]], a[1..], b[1..]);
      assert a == [a[0]] + a[1..] && b == [b[0]] + b[1..];
    }
  }

  ghost predicate OwnLane(lane: seq<VTx>, s: Address) {
    forall i :: 0 <= i < |lane| ==> lane[i].tx.sender == s
  }

  function Txs(lane: seq<VTx>): seq<Tx> {
    if lane == [] then [] else [lane[0].tx] + Txs(lane[1..])
  }

  /** The transactions of one sender. */
  function Of(out: seq<Tx>, s: Address): seq<Tx> {
    if out == [] then []
    else if out[0].sender == s then [out[0]] + Of(out[1..], s)
    else Of(out[1..], s)
  }

  /** The merge gives every sender's lane in full and in order, and nothing else. */
  lemma {:induction false} MergeGivesEveryLane(lanes: Lanes, out: seq<Tx>, s: Address)
    requires IsMerge(lanes, out)
    ensures Of(out, s) == if s in lanes then Txs(lanes[s]) else []
    decreases |out|
  {
    if out != [] {
      var s0 := out[0].sender;
      MergeGivesEveryLane(lanes[s0 := lanes[s0][1..]], out[1..], s);
    }
  }

  lemma {:induction false} MergedFromLane(lanes: Lanes, out: seq<Tx>, j: nat)
    requires IsMerge(lanes, out) && j < |out|
    ensures out[j].sender in lanes && exists k :: 0 <= k < |lanes[out[j].sender]| && lanes[out[j].sender][k].tx == out[j]
    decreases |out|
  {
    if j > 0 {
      var s := out[0].sender;
      var lanes' := lanes[s := lanes[s][1..]];
      MergedFromLane(lanes', out[1..], j - 1);
      var k :| 0 <= k < |lanes'[out[j].sender]| && lanes'[out[j].sender][k].tx == out[j];
      assert out[j].sender == s ==> lanes[s][k + 1] == lanes'[s][k];
    }
  }

  ghost predicate NonceOrdered(lane: seq<VTx>) {
    forall i, j :: 0 <= i < j < |lane| ==> lane[i].tx.nonce < lane[j].tx.nonce
  }

  /** A sender's transactions come in nonce order, so that none comes twice. */
  lemma {:induction false} MergeKeepsNonceOrder(lanes: Lanes, out: seq<Tx>, i: nat, j: nat)
    requires IsMerge(lanes, out) && forall s :: s in lanes ==> NonceOrdered(lanes[s])
    requires i < j < |out| && out[i].sender == out[j].sender
    ensures out[i].nonce < out[j].nonce
    decreases |out|
  {
    var s := out[0].sender;
    var lanes' := lanes[s := lanes[s][1..]];
    if i == 0 {
      MergedFromLane(lanes', out[1..], j - 1);
    } else {
      MergeKeepsNonceOrder(lanes', out[1..], i - 1, j - 1);
    }
  }

  // ---- Who is served first ----

  /** `out[k]` is the next transaction of another sender when `out[i]` is given. */
  ghost predicate NextOfSender(out: seq<Tx>, i: nat, k: nat)
    requires i < k < |out|
  {
    forall m :: i <= m < k ==> out[m].sender != out[k].sender
  }

  lemma {:induction false} FirstOfSender(lanes: Lanes, out: seq<Tx>, k: nat)
    requires IsMerge(lanes, out) && k < |out| && forall m :: 0 <= m < k ==> out[m].sender != out[k].sender
    ensures out[k].sender in lanes && lanes[out[k].sender] != [] && out[k] == lanes[out[k].sender][0].tx
    decreases |out|
  {
    if k > 0 {
      var s := out[0].sender;
      forall m | 0 <= m < k - 1
        ensures out[1..][m].sender != out[1..][k - 1].sender
      {
        assert out[1..][m] == out[m + 1];
      }
      FirstOfSender(lanes[s := lanes[s][1..]], out[1..], k - 1);
    }
  }

  ghost predicate Waits(lanes: Lanes, v: VTx) {
    exists s :: s in lanes && v in lanes[s]
  }

  /** Every transaction given pays at least as much as the next one of every other sender
      then; on equal fees it arrived no later, and on equal arrival its sender comes first. */
  lemma {:induction false} MergePaysBest(lanes: Lanes, out: seq<Tx>, i: nat, k: nat) returns (v: VTx, w: VTx)
    requires IsMerge(lanes, out) && i < k < |out| && NextOfSender(out, i, k)
    ensures v.tx == out[i] && w.tx == out[k] && Waits(lanes, v) && Waits(lanes, w) && PaysBest(v, w)
    decreases |out|
  {
    var s := out[0].sender;
    if i == 0 {
      FirstOfSender(lanes, out, k);
      BestPaysBest(lanes, s);
      v, w := lanes[s][0], lanes[out[k].sender][0];
    } else {
      var lanes' := lanes[s := lanes[s][1..]];
      assert out[1..][i - 1] == out[i] && out[1..][k - 1] == out[k];
      forall m | i - 1 <= m < k - 1
        ensures out[1..][m].sender != out[1..][k - 1].sender
      {
        assert out[1..][m] == out[m + 1];
      }
      v, w := MergePaysBest(lanes', out[1..], i - 1, k - 1);
      StillWaits(lanes, s, v);
      StillWaits(lanes, s, w);
    }
  }

  lemma {:induction false} StillWaits(lanes: Lanes, s: Address, v: VTx)
    requires s in lanes && lanes[s] != [] && Waits(lanes[s := lanes[s][1..]], v)
    ensures Waits(lanes, v)
  {
    var s' :| s' in lanes && v in lanes[s := lanes[s][1..]][s'];
    assert v in lanes[s'];
  }

  // ---- The lanes of a pool ----

  function NoncesFrom(m: map<nat, TxHash>, n: nat): set<nat> {
    set k | k in m && k >= n
  }

  lemma {:induction false} FewerFrom(m: map<nat, TxHash>, n: nat)
    requires n in m
    ensures NoncesFrom(m, n + 1) < NoncesFrom(m, n)
  {
    assert n in NoncesFrom(m, n);
  }

  /** The pending transactions of `s` with consecutive nonces from `n` on. */
  ghost function RunFrom(p: Pool, s: Address, n: nat): (r: seq<VTx>)
    decreases if s in p.pending then NoncesFrom(p.pending[s], n) else {}
  {
    if At(p.pending, s, n) && p.pending[s][n] in p.byHash then
      FewerFrom(p.pending[s], n);
      [p.byHash[p.pending[s][n]]] + RunFrom(p, s, n + 1)
    else []
  }

  /** `v` is the pending transaction of `s` with nonce `n`. */
  ghost predicate InRun(p: Pool, s: Address, n: nat, v: VTx) {
    && At(p.pending, s, n) && p.pending[s][n] in p.byHash && v == p.byHash[p.pending[s][n]]
    && v.tx.sender == s && v.tx.nonce == n
  }

  /** It is the longest such run. */
  lemma {:induction false} RunIsLongest(p: Pool, s: Address, n: nat)
    requires Backed(p.pending, p.byHash)
    ensures !At(p.pending, s, n + |RunFrom(p, s, n)|)
    ensures forall i :: 0 <= i < |RunFrom(p, s, n)| ==> InRun(p, s, n + i, RunFrom(p, s, n)[i])
    decreases if s in p.pending then NoncesFrom(p.pending[s], n) else {}
  {
    if At(p.pending, s, n) {
      assert Holds(p.pending, s, n, p.pending[s][n]);
      FewerFrom(p.pending[s], n);
      RunIsLongest(p, s, n + 1);
      var r, r1 := RunFrom(p, s, n), RunFrom(p, s, n + 1);
      assert r == [r[0]] + r1;
      forall i | 0 < i < |r|
        ensures InRun(p, s, n + i, r[i])
      {
        assert InRun(p, s, n + 1 + (i - 1), r1[i - 1]);
      }
    }
  }

  /** The lanes of the senders in `senders`, from their current nonces. */
  ghost function LanesAt(p: Pool, senders: set<Address>, current: map<Address, nat>): Lanes
    requires senders <= current.Keys
  {
    map s | s in senders :: RunFrom(p, s, current[s])
  }

  ghost function HeadSenders(p: Pool): set<Address> {
    set hd | hd in p.heads :: hd.sender
  }

  /** The runs from the lowest pending nonces, of the senders in the fee index. */
  ghost function PoolLanes(p: Pool): Lanes {
    map s | s in HeadSenders(p) :: LongestRun(p, s)
  }

  ghost function LongestRun(p: Pool, s: Address): seq<VTx> {
    if s !in p.pending then []
    else if n :| IsLowest(p.pending[s], n) then RunFrom(p, s, n) else []
  }

  lemma {:induction false} StartsFromLowest(p: Pool, s: Address, n: nat)
    requires s in p.pending && IsLowest(p.pending[s], n)
    ensures LongestRun(p, s) == RunFrom(p, s, n)
  {
  }

  /** With a complete fee index, the merge gives every sender's longest run of consecutive
      nonces from its lowest pending one, in order, and nothing else. */
  lemma {:induction false} MergeGivesEveryRun(p: Pool, out: seq<Tx>, s: Address)
    requires HeadsTrue(p) && HeadsComplete(p) && IsMerge(PoolLanes(p), out)
    ensures Of(out, s) == Txs(LongestRun(p, s))
  {
    MergeGivesEveryLane(PoolLanes(p), out, s);
    if s in p.pending {
      assert HasHead(p, s);
    }
  }

  /** It gives no transaction twice. */
  lemma {:induction false} MergeHasNoDuplicates(p: Pool, out: seq<Tx>, i: nat, j: nat)
    requires Agree(p) && HeadsTrue(p) && IsMerge(PoolLanes(p), out)
    requires i < j < |out|
    ensures out[i] != out[j]
  {
    if out[i].sender == out[j].sender {
      forall s | s in PoolLanes(p)
        ensures NonceOrdered(PoolLanes(p)[s])
      {
        RunIsOrdered(p, s);
      }
      MergeKeepsNonceOrder(PoolLanes(p), out, i, j);
    }
  }

  /** What waits in a lane of the pool is filed under its hash. */
  lemma {:induction false} WaitingIsFiled(p: Pool, v: VTx)
    requires Agree(p) && HeadsTrue(p) && Waits(PoolLanes(p), v)
    ensures v.tx.hash in p.byHash && p.byHash[v.tx.hash] == v
  {
    var s :| s in PoolLanes(p) && v in PoolLanes(p)[s];
    var hd :| hd in p.heads && hd.sender == s;
    var n: nat :| HeadAt(p, s, n, hd);
    StartsFromLowest(p, s, n);
    RunIsLongest(p, s, n);
    var i :| 0 <= i < |RunFrom(p, s, n)| && RunFrom(p, s, n)[i] == v;
    assert InRun(p, s, n + i, v);
    assert Filed(p, p.pending[s][n + i]);
  }

  lemma {:induction false} PoolMergePaysBest(p: Pool, out: seq<Tx>, i: nat, k: nat)
    requires Agree(p) && HeadsTrue(p) && IsMerge(PoolLanes(p), out) && i < k < |out| && NextOfSender(out, i, k)
    ensures out[i].hash in p.byHash && p.byHash[out[i].hash].tx == out[i]
    ensures out[k].hash in p.byHash && p.byHash[out[k].hash].tx == out[k]
    ensures PaysBest(p.byHash[out[i].hash], p.byHash[out[k].hash])
  {
    var v, w := MergePaysBest(PoolLanes(p), out, i, k);
    WaitingIsFiled(p, v);
    WaitingIsFiled(p, w);
  }

  lemma {:induction false} RunIsOrdered(p: Pool, s: Address)
    requires Backed(p.pending, p.byHash)
    ensures NonceOrdered(LongestRun(p, s))
  {
    if s in p.pending && exists n :: IsLowest(p.pending[s], n) {
      var n :| IsLowest(p.pending[s], n);
      StartsFromLowest(p, s, n);
      RunIsLongest(p, s, n);
    }
  }

  ghost predicate IsLowestOf(p: Pool, current: map<Address, nat>) {
    current.Keys == p.pending.Keys && forall s :: s in p.pending ==> IsLowest(p.pending[s], current[s])
  }
}
