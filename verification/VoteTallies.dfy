/** The conflicting votes that a view counts: a counter of messages, not of replicas. */
module VoteTallies {
  import opened Wrappers
  import opened Blocks
  import opened FiniteSets
  import opened Protocol
  import opened Evidence
  import opened Thresholds

  datatype Ballot = Ballot(peer: int, hash: Hash)

  /** The votes of a view: those for its hash, those that came before the hash was known,
      and the number of conflicting ones. */
  datatype Tally = Tally(hash: Option<Hash>, votes: set<Ballot>, early: set<Ballot>, invalid: nat)

  function EmptyTally(): Tally {
    Tally(None, {}, {}, 0)
  }

  predicate HasVote(votes: set<Ballot>, peer: int) {
    exists v :: v in votes && v.peer == peer
  }

  /** A valid vote arrives. Only the peers of recorded votes are remembered. */
  function Hear(t: Tally, b: Ballot): Tally {
    if HasVote(t.votes, b.peer) || HasVote(t.early, b.peer) then t
    else if t.hash.None? then t.(early := t.early + {b})
    else if b.hash != t.hash.value then t.(invalid := t.invalid + 1)
    else t.(votes := t.votes + {b})
  }

  function For(early: set<Ballot>, h: Hash): set<Ballot> {
    set v | v in early && v.hash == h
  }

  function OwnBallots(own: set<int>, h: Hash): set<Ballot> {
    set p | p in own :: Ballot(p, h)
  }

  /** The view's hash becomes known, by a proposal, an own vote or an M-notarization, with
      the votes that come with it; the votes that waited for it are sorted. */
  function Fix(t: Tally, h: Hash, own: set<int>): Tally {
    Tally(Some(h), t.votes + OwnBallots(own, h) + For(t.early, h), {}, t.invalid + |t.early - For(t.early, h)|)
  }

  datatype Event = Arrive(ballot: Ballot) | Fixed(hash: Hash, own: set<int>)

  function Apply(t: Tally, e: Event): Tally {
    match e
    case Arrive(b) => Hear(t, b)
    case Fixed(h, own) => Fix(t, h, own)
  }

  function After(es: seq<Event>): Tally {
    if es == [] then EmptyTally() else Apply(After(es[..|es| - 1]), es[|es| - 1])
  }

  /** What a view answers to a vote. */
  datatype Collected = Collected(
    shouldAwait: bool, enoughToMNotarize: bool, enoughToFinalize: bool, shouldNullify: bool, shouldVote: bool)

  class ViewVotes {
    const n: nat
    const f: nat
    var blockHash: Option<Hash>
    var votes: set<Ballot>
    var nonVerified: set<Ballot>
    var invalid: nat
    var mNotarized: bool
    var hasVoted: bool
    var hasNullified: bool
    var nullifies: set<int>

    function State(): Tally
      reads this
    {
      Tally(blockHash, votes, nonVerified, invalid)
    }

    constructor (n: nat, f: nat)
      ensures State() == EmptyTally() && !mNotarized && !hasVoted && !hasNullified && nullifies == {}
      ensures this.n == n && this.f == f
    {
      this.n, this.f := n, f;
      blockHash, votes, nonVerified, invalid := None, {}, {}, 0;
      mNotarized, hasVoted, hasNullified, nullifies := false, false, false, {};
    }

    predicate ShouldNullify()
      reads this
    {
      !hasNullified && StrongEvidence(f, invalid, |nullifies|)
    }

    /** A vote waits for the hash; with 2F+1 that agree, the replica follows them. */
    method SetAside(b: Ballot) returns (shouldVote: bool)
      requires b !in nonVerified
      modifies `nonVerified
      ensures nonVerified == old(nonVerified) + {b}
      ensures shouldVote <==> !hasVoted && !hasNullified && |For(nonVerified, b.hash)| > 2 * f
    {
      var matching, moved := CountMatching(nonVerified, b.hash);
      assert For(nonVerified + {b}, b.hash) == moved + {b};
      shouldVote := !hasVoted && !hasNullified && matching + 1 > 2 * f;
      nonVerified := nonVerified + {b};
    }

    /** The result is none where the source returns an error. A vote for the hash that makes
        2F+1 notarizes the block. */
    method AddVote(b: Ballot) returns (r: Option<Collected>)
      modifies `votes, `nonVerified, `invalid, `mNotarized
      ensures State() == Hear(old(State()), b)
      ensures r.None? <==> HasVote(old(votes), b.peer) || HasVote(old(nonVerified), b.peer)
      ensures mNotarized <==> old(mNotarized) || (r.Some? && r.value.enoughToMNotarize)
      ensures r.Some? ==>
        && (r.value.shouldAwait <==> blockHash.None?)
        && (r.value.enoughToMNotarize <==> blockHash == Some(b.hash) && |votes| > 2 * f && !old(mNotarized))
        && (r.value.enoughToFinalize <==> blockHash == Some(b.hash) && |votes| + f >= n)
        && (r.value.shouldNullify <==> ShouldNullify())
        && (r.value.shouldVote <==>
              blockHash.None? && !hasVoted && !hasNullified && |For(nonVerified, b.hash)| > 2 * f)
    {
      if HasVote(votes, b.peer) || HasVote(nonVerified, b.peer) {
        return None;
      }
      if blockHash.None? {
        var shouldVote := SetAside(b);
        return Some(Collected(true, false, false, ShouldNullify(), shouldVote));
      }
      if b.hash != blockHash.value {
        invalid := invalid + 1;
        return Some(Collected(false, false, false, ShouldNullify(), false));
      }
      votes := votes + {b};
      var enoughToMNotarize := |votes| > 2 * f && !mNotarized;
      mNotarized := mNotarized || enoughToMNotarize;
      return Some(Collected(false, enoughToMNotarize, |votes| + f >= n, ShouldNullify(), false));
    }

    method FixHash(h: Hash, own: set<int>)
      modifies `blockHash, `votes, `nonVerified, `invalid
      ensures State() == Fix(old(State()), h, own)
    {
      blockHash := Some(h);
      votes := votes + OwnBallots(own, h);
      var matching, moved := CountMatching(nonVerified, h);
      MatchingSize(nonVerified, h);
      votes := votes + moved;
      invalid := invalid + (|nonVerified| - matching);
      nonVerified := {};
    }
  }

  lemma {:induction false} MatchingSize(early: set<Ballot>, h: Hash)
    ensures |early - For(early, h)| == |early| - |For(early, h)|
  {
    DisjointSize(early - For(early, h), For(early, h));
    assert early - For(early, h) + For(early, h) == early;
  }

  /** The waiting votes for `h`, and their number. */
  method CountMatching(early: set<Ballot>, h: Hash) returns (matching: nat, moved: set<Ballot>)
    ensures moved == For(early, h) && matching == |moved|
  {
    matching, moved := 0, {};
    var rest := early;
    while rest != {}
      invariant rest <= early && moved == For(early - rest, h) && matching == |moved|
      decreases |rest|
    {
      var v :| v in rest;
      assert early - (rest - {v}) == early - rest + {v};
      if v.hash == h {
        assert For(early - rest + {v}, h) == moved + {v};
        moved, matching := moved + {v}, matching + 1;
      } else {
        assert For(early - rest + {v}, h) == moved;
      }
      rest := rest - {v};
    }
    assert early - rest == early;
  }

  // ---- What the counter counts ----

  function Peers(e: Event): set<int> {
    match e
    case Arrive(b) => {b.peer}
    case Fixed(h, own) => own
  }

  /** The peers that have voted. */
  function Senders(es: seq<Event>): set<int> {
    if es == [] then {} else Senders(es[..|es| - 1]) + Peers(es[|es| - 1])
  }

  function HashOf(e: Event): Hash {
    match e
    case Arrive(b) => b.hash
    case Fixed(h, own) => h
  }

  /** What a peer voted for first. */
  function FirstVote(es: seq<Event>, p: int): (r: Option<Hash>)
    ensures r.Some? <==> p in Senders(es)
  {
    if es == [] then None
    else if p in Senders(es[..|es| - 1]) then FirstVote(es[..|es| - 1], p)
    else if p in Peers(es[|es| - 1]) then Some(HashOf(es[|es| - 1]))
    else None
  }

  /** The peers whose first vote conflicts with `h`. */
  function Counted(es: seq<Event>, h: Hash): set<int> {
    set p | p in Senders(es) && FirstVote(es, p) != Some(h)
  }

  /** The last event is one more conflicting vote of a peer that is counted already. */
  predicate Repeats(es: seq<Event>, h: Hash)
    requires es != []
  {
    var before, e := es[..|es| - 1], es[|es| - 1];
    && e.Arrive? && e.ballot.hash != h && After(before).hash.Some?
    && e.ballot.peer in Counted(before, h) && !HasVote(After(before).votes, e.ballot.peer)
  }

  function Repeated(es: seq<Event>, h: Hash): nat {
    if es == [] then 0 else Repeated(es[..|es| - 1], h) + if Repeats(es, h) then 1 else 0
  }

  /** The hash of the view, once known, stays the same. */
  ghost predicate OneHash(es: seq<Event>, h: Hash) {
    forall e :: e in es && e.Fixed? ==> e.hash == h
  }

  ghost predicate TallyInv(es: seq<Event>, h: Hash) {
    var t := After(es);
    && (t.hash.None? || t.hash == Some(h))
    && (forall v :: v in t.votes + t.early ==> v.peer in Senders(es))
    && (forall p :: FirstVote(es, p) == Some(h) && t.hash.Some? ==> HasVote(t.votes, p))
    && (if t.hash.None? then
          t.votes == {} && t.invalid == 0 && Repeated(es, h) == 0
          && (forall v :: v in t.early <==> FirstVote(es, v.peer) == Some(v.hash))
        else t.early == {} && t.invalid == |Counted(es, h)| + Repeated(es, h))
  }

  lemma {:induction false} EarlyArrival(es: seq<Event>, h: Hash)
    requires es != [] && es[|es| - 1].Arrive? && TallyInv(es[..|es| - 1], h)
    requires After(es[..|es| - 1]).hash.None?
    ensures TallyInv(es, h)
  {
    var before, b := es[..|es| - 1], es[|es| - 1].ballot;
    var t := After(before);
    if b.peer in Senders(before) {
      assert Ballot(b.peer, FirstVote(before, b.peer).value) in t.early;
      assert After(es) == t;
    } else {
      assert !HasVote(t.early, b.peer);
    }
  }

  lemma {:induction false} CountedAfter(es: seq<Event>, h: Hash)
    requires es != [] && es[|es| - 1].Arrive?
    ensures var before, b := es[..|es| - 1], es[|es| - 1].ballot;
      Counted(es, h) == Counted(before, h) + if b.peer in Senders(before) || b.hash == h then {} else {b.peer}
  {
  }

  lemma {:induction false} LateArrival(es: seq<Event>, h: Hash)
    requires es != [] && es[|es| - 1].Arrive? && TallyInv(es[..|es| - 1], h)
    requires After(es[..|es| - 1]).hash.Some?
    ensures TallyInv(es, h)
  {
    var before, b := es[..|es| - 1], es[|es| - 1].ballot;
    var t, t' := After(before), After(es);
    assert !HasVote(t.early, b.peer);
    if HasVote(t.votes, b.peer) {
      IgnoredArrival(es, h);
    } else if b.hash == h {
      CountedAfter(es, h);
      assert !Repeats(es, h);
      LateVotes(es, h);
    } else {
      CountedAfter(es, h);
      assert Repeats(es, h) <==> b.peer in Senders(before);
    }
  }

  /** A vote of a peer with a recorded vote changes nothing. */
  lemma {:induction false} IgnoredArrival(es: seq<Event>, h: Hash)
    requires es != [] && es[|es| - 1].Arrive? && TallyInv(es[..|es| - 1], h)
    requires After(es[..|es| - 1]).hash.Some?
    requires HasVote(After(es[..|es| - 1]).votes, es[|es| - 1].ballot.peer)
    ensures TallyInv(es, h)
  {
    var before, b := es[..|es| - 1], es[|es| - 1].ballot;
    assert b.peer in Senders(before);
    assert Senders(es) == Senders(before) && After(es) == After(before) && !Repeats(es, h);
    CountedAfter(es, h);
  }

  /** A vote for the hash adds its peer to those with a vote. */
  lemma {:induction false} LateVotes(es: seq<Event>, h: Hash)
    requires es != [] && es[|es| - 1].Arrive? && TallyInv(es[..|es| - 1], h)
    requires After(es).votes == After(es[..|es| - 1]).votes + {es[|es| - 1].ballot}
    requires After(es[..|es| - 1]).hash.Some?
    ensures forall p :: FirstVote(es, p) == Some(h) ==> HasVote(After(es).votes, p)
  {
    var before, b := es[..|es| - 1], es[|es| - 1].ballot;
    forall p | FirstVote(es, p) == Some(h)
      ensures HasVote(After(es).votes, p)
    {
      if p in Senders(before) {
        var v :| v in After(before).votes && v.peer == p;
        assert v in After(es).votes;
      } else {
        assert b in After(es).votes;
      }
    }
  }

  /** The votes that waited and conflict are those of the peers whose first vote does. */
  lemma {:induction false} WaitingConflicts(es: seq<Event>, h: Hash)
    requires forall v :: v in After(es).early <==> FirstVote(es, v.peer) == Some(v.hash)
    ensures var early := After(es).early; |early - For(early, h)| == |Counted(es, h)|
  {
    var early := After(es).early;
    var conflicts := early - For(early, h);
    PeersSize(conflicts);
    forall p | p in Counted(es, h)
      ensures p in PeersOf(conflicts)
    {
      assert Ballot(p, FirstVote(es, p).value) in conflicts;
    }
    assert PeersOf(conflicts) == Counted(es, h);
  }

  ghost function PeersOf(votes: set<Ballot>): set<int> {
    set v | v in votes :: v.peer
  }

  lemma {:induction false} PeersSize(votes: set<Ballot>)
    requires forall v, w :: v in votes && w in votes && v.peer == w.peer ==> v == w
    ensures |PeersOf(votes)| == |votes|
    decreases |votes|
  {
    if votes == {} {
      assert PeersOf(votes) == {};
    } else {
      var v :| v in votes;
      PeersSize(votes - {v});
      assert PeersOf(votes) == PeersOf(votes - {v}) + {v.peer};
    }
  }

  lemma {:induction false} FixingKeepsInv(es: seq<Event>, h: Hash)
    requires es != [] && es[|es| - 1].Fixed? && es[|es| - 1].hash == h && TallyInv(es[..|es| - 1], h)
    ensures TallyInv(es, h)
  {
    var before, e := es[..|es| - 1], es[|es| - 1];
    var t, t' := After(before), After(es);
    assert Counted(es, h) == Counted(before, h);
    if t.hash.None? {
      WaitingConflicts(before, h);
    } else {
      assert t.early - For(t.early, h) == {};
    }
    forall p | FirstVote(es, p) == Some(h)
      ensures HasVote(t'.votes, p)
    {
      if p in e.own {
        assert Ballot(p, h) in OwnBallots(e.own, h);
      } else if t.hash.None? {
        assert Ballot(p, h) in For(t.early, h);
      } else {
        var v :| v in t.votes && v.peer == p;
        assert v in t'.votes;
      }
    }
  }

  lemma {:induction false} TallyOfRun(es: seq<Event>, h: Hash)
    requires OneHash(es, h)
    ensures TallyInv(es, h)
  {
    if es != [] {
      TallyOfRun(es[..|es| - 1], h);
      assert es[|es| - 1] in es;
      if es[|es| - 1].Fixed? {
        FixingKeepsInv(es, h);
      } else if After(es[..|es| - 1]).hash.None? {
        EarlyArrival(es, h);
      } else {
        LateArrival(es, h);
      }
    }
  }

  /** The peers with a vote for another hash. */
  function Conflicting(es: seq<Event>, h: Hash): set<int> {
    if es == [] then {}
    else Conflicting(es[..|es| - 1], h) + if HashOf(es[|es| - 1]) != h then Peers(es[|es| - 1]) else {}
  }

  /** The conflicting peers whose vote for `h` came first. */
  function Missed(es: seq<Event>, h: Hash): set<int> {
    set p | p in Conflicting(es, h) && FirstVote(es, p) == Some(h)
  }

  lemma {:induction false} CountedConflict(es: seq<Event>, h: Hash)
    ensures Counted(es, h) <= Conflicting(es, h) <= Senders(es)
  {
    if es != [] {
      CountedConflict(es[..|es| - 1], h);
    }
  }

  /** Once the hash is known, the counter is the number of conflicting peers, less those
      that voted for the hash first, plus the repeated votes of the counted ones. */
  lemma {:induction false} CounterIs(es: seq<Event>, h: Hash)
    requires OneHash(es, h) && After(es).hash.Some?
    ensures After(es).hash == Some(h)
    ensures After(es).invalid == |Conflicting(es, h)| - |Missed(es, h)| + Repeated(es, h)
  {
    TallyOfRun(es, h);
    CountedConflict(es, h);
    DisjointSize(Counted(es, h), Missed(es, h));
    assert Counted(es, h) + Missed(es, h) == Conflicting(es, h);
  }

  /** It is the number of conflicting peers exactly if as many votes are repeated as peers
      are missed, so in particular if none are. */
  lemma {:induction false} CountsPeersExactly(es: seq<Event>, h: Hash)
    requires OneHash(es, h) && After(es).hash.Some?
    ensures After(es).invalid == |Conflicting(es, h)| <==> Repeated(es, h) == |Missed(es, h)|
  {
    CounterIs(es, h);
  }

  /** As long as the hash is not replaced, the recorded votes are votes for it by as many
      peers, so that 2F+1 of them are a notarization. */
  lemma {:induction false} RecordedVotes(es: seq<Event>, h: Hash)
    requires OneHash(es, h)
    ensures forall v :: v in After(es).votes ==> v.hash == h
    ensures |PeersOf(After(es).votes)| == |After(es).votes|
  {
    RecordedForHash(es, h);
    PeersSize(After(es).votes);
  }

  lemma {:induction false} RecordedForHash(es: seq<Event>, h: Hash)
    requires OneHash(es, h)
    ensures After(es).hash.None? || After(es).hash == Some(h)
    ensures forall v :: v in After(es).votes ==> v.hash == h
  {
    if es != [] {
      assert es[|es| - 1] in es;
      RecordedForHash(es[..|es| - 1], h);
    }
  }

  /** A replaced hash keeps the votes recorded for the old one: they are counted for the
      new one. */
  lemma {:induction false} ReplacedHashKeepsVotes(es: seq<Event>, h: Hash, own: set<int>)
    requires After(es).early == {}
    ensures After(es + [Fixed(h, own)]).votes == After(es).votes + OwnBallots(own, h)
  {
    AfterAppend(es, Fixed(h, own));
    assert For({}, h) == {};
  }

  // ---- What one peer can do to the counter ----

  function Repeat(e: Event, k: nat): seq<Event> {
    if k == 0 then [] else Repeat(e, k - 1) + [e]
  }

  /** A view whose hash is `h`, with votes of `own`, hears `k` votes of peer `p` for `g`. */
  function Storm(h: Hash, own: set<int>, p: int, g: Hash, k: nat): seq<Event> {
    [Fixed(h, own)] + Repeat(Arrive(Ballot(p, g)), k)
  }

  lemma {:induction false} AfterAppend(es: seq<Event>, e: Event)
    ensures After(es + [e]) == Apply(After(es), e)
  {
    assert (es + [e])[..|es|] == es;
  }

  /** Every message of the same peer is counted. */
  lemma {:induction false} EveryMessageCounts(h: Hash, own: set<int>, p: int, g: Hash, k: nat)
    requires g != h && p !in own
    ensures After(Storm(h, own, p, g, k)) == Tally(Some(h), OwnBallots(own, h), {}, k)
    decreases k
  {
    if k == 0 {
      assert Storm(h, own, p, g, 0) == [] + [Fixed(h, own)];
      AfterAppend([], Fixed(h, own));
      assert For({}, h) == {};
    } else {
      EveryMessageCounts(h, own, p, g, k - 1);
      AfterAppend(Storm(h, own, p, g, k - 1), Arrive(Ballot(p, g)));
      assert Storm(h, own, p, g, k) == Storm(h, own, p, g, k - 1) + [Arrive(Ballot(p, g))];
    }
  }

  /** So one peer makes a replica that has voted, as any of `own`, nullify the view. */
  lemma {:induction false} OnePeerIsEvidence(f: nat, h: Hash, own: set<int>, p: int, g: Hash)
    requires g != h && p !in own
    ensures Decide(f, false, false, true, After(Storm(h, own, p, g, f + 1)).invalid, 0).Byzantine?
  {
    EveryMessageCounts(h, own, p, g, f + 1);
  }

  /** A peer whose vote for the hash came first is not counted, whatever it sends later. */
  lemma {:induction false} EquivocatorIsMissed(h: Hash, own: set<int>, p: int, g: Hash)
    requires g != h && p !in own
    ensures var es := [Fixed(h, own)] + [Arrive(Ballot(p, h))] + [Arrive(Ballot(p, g))];
      After(es).invalid == 0 && p in Conflicting(es, h)
  {
    var e0 := [Fixed(h, own)];
    var e1 := e0 + [Arrive(Ballot(p, h))];
    EveryMessageCounts(h, own, p, g, 0);
    assert Storm(h, own, p, g, 0) == e0;
    AfterAppend(e0, Arrive(Ballot(p, h)));
    assert Ballot(p, h) in After(e1).votes;
    AfterAppend(e1, Arrive(Ballot(p, g)));
  }

  // ---- A replaced hash ----

  /** Both tallies know the same hash and have recorded votes of the same peers. */
  ghost predicate SameView(t: Tally, t': Tally) {
    && t.hash.Some? && t.hash == t'.hash && t.early == {} && t'.early == {}
    && forall p :: HasVote(t.votes, p) <==> HasVote(t'.votes, p)
  }

  lemma {:induction false} HasVoteIn(votes: set<Ballot>, more: set<Ballot>, p: int)
    ensures HasVote(votes + more, p) <==> HasVote(votes, p) || HasVote(more, p)
  {
    if HasVote(votes, p) {
      var v :| v in votes && v.peer == p;
      assert v in votes + more;
    }
    if HasVote(more, p) {
      var v :| v in more && v.peer == p;
      assert v in votes + more;
    }
  }

  /** From then on, both count the same. */
  lemma {:induction false} SameViewCounts(t: Tally, t': Tally, e: Event)
    requires SameView(t, t')
    ensures SameView(Apply(t, e), Apply(t', e))
    ensures Apply(t, e).invalid - t.invalid == Apply(t', e).invalid - t'.invalid
  {
    if e.Fixed? {
      assert For({}, e.hash) == {};
      forall p
        ensures HasVote(Apply(t, e).votes, p) <==> HasVote(Apply(t', e).votes, p)
      {
        HasVoteIn(t.votes, OwnBallots(e.own, e.hash), p);
        HasVoteIn(t'.votes, OwnBallots(e.own, e.hash), p);
      }
    } else {
      forall p
        ensures HasVote(t.votes + {e.ballot}, p) <==> HasVote(t'.votes + {e.ballot}, p)
      {
        HasVoteIn(t.votes, {e.ballot}, p);
        HasVoteIn(t'.votes, {e.ballot}, p);
      }
    }
  }

  lemma {:induction false} OwnHaveVotes(own: set<int>, h: Hash, p: int)
    ensures HasVote(OwnBallots(own, h), p) <==> p in own
  {
    if p in own {
      assert Ballot(p, h) in OwnBallots(own, h);
    }
  }

  lemma {:induction false} PeersHaveVotes(votes: set<Ballot>, p: int)
    ensures p in PeersOf(votes) <==> HasVote(votes, p)
  {
  }

  /** A proposal replaces the hash `h` set by an own vote. The counter goes on as if the view
      started with the new hash and the votes of the peers recorded so far; so it is the sum
      of what `CounterIs` says of the two parts. */
  lemma {:induction false} ReplacedHash(es: seq<Event>, h: Hash, own: set<int>, more: seq<Event>)
    requires After(es).hash.Some? && After(es).early == {}
    ensures var anew := [Fixed(h, PeersOf(After(es).votes) + own)];
      && SameView(After(es + [Fixed(h, own)] + more), After(anew + more))
      && After(es + [Fixed(h, own)] + more).invalid == After(es).invalid + After(anew + more).invalid
    decreases |more|
  {
    var first, anew := es + [Fixed(h, own)], [Fixed(h, PeersOf(After(es).votes) + own)];
    if more == [] {
      AfterAppend(es, Fixed(h, own));
      AfterAppend([], Fixed(h, PeersOf(After(es).votes) + own));
      assert first + more == first && anew + more == [] + anew && For({}, h) == {};
      forall p
        ensures HasVote(After(first).votes, p) <==> HasVote(After(anew).votes, p)
      {
        HasVoteIn(After(es).votes, OwnBallots(own, h), p);
        OwnHaveVotes(own, h, p);
        OwnHaveVotes(PeersOf(After(es).votes) + own, h, p);
        PeersHaveVotes(After(es).votes, p);
      }
    } else {
      var before, e := more[..|more| - 1], more[|more| - 1];
      ReplacedHash(es, h, own, before);
      assert first + more == first + before + [e] && anew + more == anew + before + [e];
      AfterAppend(first + before, e);
      AfterAppend(anew + before, e);
      SameViewCounts(After(first + before), After(anew + before), e);
    }
  }

  // ---- Runs in which replicas decide by the counter ----

  /** A view of `b` can have heard `es` from the messages received. */
  ghost predicate Heard(c: Config, es: seq<Event>, recv: set<Msg>, b: Block) {
    && OneHash(es, b) && After(es).hash.Some?
    && (forall p, g :: Arrive(Ballot(p, g)) in es ==> Vote(p, g) in recv && View(g) == View(b) && p in Replicas(c))
    && OwnVoted(es, recv)
  }

  /** The votes that came with the hash were sent. */
  ghost predicate OwnVoted(es: seq<Event>, recv: set<Msg>) {
    forall e :: e in es && e.Fixed? ==> forall p :: p in e.own ==> Vote(p, e.hash) in recv
  }

  /** Some order and repetition of the received votes makes the counter, or the counter
      and the nullifiers, exceed the threshold. */
  ghost predicate TallyAllows(c: Config, t: nat, s: nat, recv: set<Msg>, b: Block) {
    exists es :: Heard(c, es, recv, b)
      && (After(es).invalid > t || After(es).invalid + |Nullifiers(c, recv, View(b))| > s)
  }

  ghost function Tallying(c: Config, t: nat, s: nat): Guard {
    (recv: set<Msg>, b: Block) => TallyAllows(c, t, s, recv, b)
  }

  ghost function TallyingRule(t: nat, s: nat): Rule {
    (c: Config) => Tallying(c, t, s)
  }

  lemma {:induction false} RepeatHolds(e: Event, k: nat)
    ensures forall x :: x in Repeat(e, k) ==> x == e
  {
    if k > 0 {
      RepeatHolds(e, k - 1);
    }
  }

  lemma {:induction false} StormAllows(c: Config, t: nat, s: nat, recv: set<Msg>, r: int, z: int)
    requires Vote(r, FIRST) in recv && Vote(z, SECOND) in recv && z in Replicas(c) && r != z
    ensures TallyAllows(c, t, s, recv, FIRST)
  {
    var es := Storm(FIRST, {r}, z, SECOND, t + 1);
    EveryMessageCounts(FIRST, {r}, z, SECOND, t + 1);
    RepeatHolds(Arrive(Ballot(z, SECOND)), t + 1);
    assert Heard(c, es, recv, FIRST);
  }

  lemma {:induction false} ReachesStorm(c: Config, t: nat, s: nat, loyal: set<int>, z: int)
    requires z in c.byz && z in Replicas(c) && loyal != {} && forall r :: r in loyal ==> Correct(c, r)
    ensures Reaches(c, Tallying(c, t, s), FirstView(loyal, {z}, loyal))
  {
    var ms, guard := FirstView(loyal, {z}, {}), Tallying(c, t, s);
    ReachesLoyal(c, guard, loyal);
    ReachesByzantine(c, guard, VotesFrom(loyal, FIRST), {Vote(z, SECOND)});
    assert VotesFrom(loyal, FIRST) + {Vote(z, SECOND)} == ms;
    var r := Member(loyal);
    StormAllows(c, t, s, ms, r, z);
    ReachesNullifies(c, guard, ms, ms, loyal, 1);
    assert ms + NullifiesFrom(loyal, 1) == FirstView(loyal, {z}, loyal);
  }

  lemma {:induction false} StormBreaks(c: Config, t: nat, s: nat, loyal: set<int>, z: int)
    requires ValidConfig(c) && z in c.byz && loyal <= Replicas(c) && forall r :: r in loyal ==> Correct(c, r)
    requires |loyal| >= c.n - c.f >= 2 * c.f + 1
    ensures exists ms :: Reaches(c, Tallying(c, t, s), ms) && !Exclusive(c, ms)
    ensures exists ms :: Reaches(c, Tallying(c, t, s), ms) && !OneBranch(c, ms)
  {
    var ms := FirstView(loyal, {z}, loyal);
    ReachesStorm(c, t, s, loyal, z);
    FirstViewCounts(c, loyal, {z}, loyal);
    assert View(FIRST) == 1 && LNotarized(c, ms, FIRST) && Nullified(c, ms, 1);
    assert !Exclusive(c, ms);
    Forks(c, Tallying(c, t, s), ms);
  }

  // ---- Back to distinct replicas ----

  /** `es` hears every vote of the view that was received, and no other. */
  ghost predicate HearsAll(es: seq<Event>, c: Config, recv: set<Msg>, b: Block) {
    && (forall p, g :: Arrive(Ballot(p, g)) in es <==> Vote(p, g) in recv && View(g) == View(b) && p in Replicas(c))
    && OneHash(es, b) && OwnVoted(es, recv)
  }

  lemma {:induction false} ConflictingArrived(es: seq<Event>, h: Hash, p: int)
    requires OneHash(es, h)
    ensures p in Conflicting(es, h) <==> exists g :: g != h && Arrive(Ballot(p, g)) in es
  {
    if es != [] {
      var before, e := es[..|es| - 1], es[|es| - 1];
      ConflictingArrived(before, h, p);
      assert e in es && es == before + [e];
      if p in Conflicting(es, h) && p !in Conflicting(before, h) {
        assert e == Arrive(Ballot(p, e.ballot.hash));
      }
    }
  }

  /** Then the conflicting peers are the conflicting voters of the evidence rule. */
  lemma {:induction false} HeardAreConflicting(es: seq<Event>, c: Config, recv: set<Msg>, b: Block)
    requires HearsAll(es, c, recv, b)
    ensures Conflicting(es, b) == ConflictingVoters(c, recv, b)
  {
    forall p
      ensures p in Conflicting(es, b) <==> p in ConflictingVoters(c, recv, b)
    {
      ConflictingArrived(es, b, p);
      if p in ConflictingVoters(c, recv, b) {
        var g :| Vote(p, g) in recv && View(g) == View(b) && g != b;
        assert Arrive(Ballot(p, g)) in es;
      }
    }
  }

  /** The counter is their number exactly if repetitions make up for missed ones. */
  lemma {:induction false} CountsVotersExactly(es: seq<Event>, c: Config, recv: set<Msg>, b: Block)
    requires HearsAll(es, c, recv, b) && After(es).hash.Some?
    ensures After(es).invalid == |ConflictingVoters(c, recv, b)| <==> Repeated(es, b) == |Missed(es, b)|
  {
    HeardAreConflicting(es, c, recv, b);
    CountsPeersExactly(es, b);
  }

  // ---- No threshold on the counter suffices ----

  lemma {:induction false} RepeatsNeedCounted(es: seq<Event>, h: Hash)
    ensures Repeated(es, h) > 0 ==> Counted(es, h) != {}
  {
    if es != [] {
      var before := es[..|es| - 1];
      RepeatsNeedCounted(before, h);
      assert Counted(before, h) <= Counted(es, h);
    }
  }

  /** The counter moves only if some replica voted otherwise. */
  lemma {:induction false} CounterNeedsConflict(c: Config, es: seq<Event>, recv: set<Msg>, b: Block)
    requires Heard(c, es, recv, b) && After(es).invalid > 0
    ensures Opponents(c, recv, b) != {}
  {
    TallyOfRun(es, b);
    RepeatsNeedCounted(es, b);
    CountedConflict(es, b);
    var p := Member(Counted(es, b));
    ConflictingArrived(es, b, p);
    var g :| g != b && Arrive(Ballot(p, g)) in es;
    assert Against(recv, p, b);
  }

  /** Without Byzantine replicas the counter is evidence enough. */
  lemma {:induction false} TallyingDemands(c: Config, t: nat, s: nat)
    requires c.f == 0
    ensures Demanding(c, Tallying(c, t, s))
  {
    forall recv, b | Tallying(c, t, s)(recv, b)
      ensures |Opponents(c, recv, b)| > 0
    {
      var es :| Heard(c, es, recv, b)
        && (After(es).invalid > t || After(es).invalid + |Nullifiers(c, recv, View(b))| > s);
      if After(es).invalid > 0 {
        CounterNeedsConflict(c, es, recv, b);
      } else {
        OpponentsInclude(c, recv, b);
      }
    }
  }

  lemma {:induction false} StormsBreak(n: nat, f: nat, t: nat, s: nat)
    requires f >= 1 && n >= 3 * f + 1
    ensures var c := LastAre(n, f);
      && (exists ms :: Reaches(c, Tallying(c, t, s), ms) && !Exclusive(c, ms))
      && (exists ms :: Reaches(c, Tallying(c, t, s), ms) && !OneBranch(c, ms))
  {
    StormBreaks(LastAre(n, f), t, s, Range(0, n - f), n - 1);
  }

  /** Under the test of the counter alone, whatever its thresholds, Lemma 5.3 and consistency
      hold in every run exactly if no replica is Byzantine. With one, all correct replicas
      vote for a block and finalize it, and its repeated vote makes them all nullify the
      view. */
  lemma {:induction false} NoThresholdOnCounter(n: nat, f: nat, t: nat, s: nat)
    requires n >= 3 * f + 1
    ensures KeepsLemma(n, f, TallyingRule(t, s)) <==> f == 0
    ensures KeepsConsistency(n, f, TallyingRule(t, s)) <==> f == 0
  {
    if f > 0 {
      StormsBreak(n, f, t, s);
      assert ValidConfig(LastAre(n, f));
    } else {
      forall byz: set<int>, ms |
        ValidConfig(Config(n, f, byz)) && Reaches(Config(n, f, byz), TallyingRule(t, s)(Config(n, f, byz)), ms)
        ensures Exclusive(Config(n, f, byz), ms) && OneBranch(Config(n, f, byz), ms)
      {
        TallyingDemands(Config(n, f, byz), t, s);
        DemandingIsSafe(Config(n, f, byz), Tallying(Config(n, f, byz), t, s), ms);
      }
    }
  }
}
