/** When the evidence rule lets every correct replica leave a view, on the counter of
    conflicting votes that it reads. */
module StuckViews {
  import opened Wrappers
  import opened Blocks
  import opened FiniteSets
  import opened Protocol
  import opened Evidence
  import opened VoteTallies

  /** Every correct replica has voted or nullified in view `v`, no block of it has
      2F+1 votes, and yet a correct replica that has not nullified is refused,
      although it has heard every vote, in some order and with any repetitions, and
      received every nullify message. */
  ghost predicate Stuck(c: Config, ms: set<Msg>, v: nat, r: int, b: Block, es: seq<Event>) {
    && ValidConfig(c) && Inv(c, ms)
    && (forall p :: Correct(c, p) ==> VotedInView(ms, p, v) || Nullify(p, v) in ms)
    && Correct(c, r) && Vote(r, b) in ms && View(b) == v
    && |Voters(c, ms, b)| < 2 * c.f + 1
    && HearsAll(es, c, ms, b) && After(es).hash.Some?
    && Decide(c.f, false, Nullify(r, v) in ms, true, After(es).invalid, |Nullifiers(c, ms, v)|).Refused?
  }

  // ---- What the counter misses ----

  /** A peer whose first vote was for the hash has sent a vote for it. */
  lemma {:induction false} FirstVoteSent(es: seq<Event>, c: Config, ms: set<Msg>, b: Block, p: int)
    requires OneHash(es, b) && OwnVoted(es, ms) && FirstVote(es, p) == Some(b)
    requires forall q, g :: Arrive(Ballot(q, g)) in es ==> Vote(q, g) in ms
    ensures Vote(p, b) in ms
  {
    var before, e := es[..|es| - 1], es[|es| - 1];
    assert e in es && es == before + [e];
    if p in Senders(before) {
      FirstVoteSent(before, c, ms, b, p);
    } else if e.Arrive? {
      assert e == Arrive(Ballot(p, b));
    }
  }

  /** Only Byzantine equivocators are missed. */
  lemma {:induction false} MissedAreByzantine(es: seq<Event>, c: Config, ms: set<Msg>, b: Block, p: int)
    requires VoteOnce(c, ms) && HearsAll(es, c, ms, b) && p in Missed(es, b)
    ensures p in c.byz
  {
    FirstVoteSent(es, c, ms, b, p);
    ConflictingArrived(es, b, p);
    var g :| g != b && Arrive(Ballot(p, g)) in es;
    assert Vote(p, g) in ms && View(g) == View(b) && p in Replicas(c);
    assert Vote(p, b) in ms;
  }

  /** So the counter is at least the number of correct conflicting voters. */
  lemma {:induction false} CounterReaches(es: seq<Event>, c: Config, ms: set<Msg>, b: Block)
    requires VoteOnce(c, ms) && HearsAll(es, c, ms, b) && After(es).hash.Some?
    ensures |ConflictingVoters(c, ms, b) - c.byz| <= After(es).invalid
  {
    CounterIs(es, b);
    HeardAreConflicting(es, c, ms, b);
    forall p | p in Missed(es, b)
      ensures p in c.byz
    {
      MissedAreByzantine(es, c, ms, b, p);
    }
    SubsetSize(ConflictingVoters(c, ms, b) - c.byz, Conflicting(es, b) - Missed(es, b));
  }

  /** For N >= 5F+1 no view gets stuck, whatever the counter misses or counts twice. */
  lemma {:induction false} NotStuck(c: Config, ms: set<Msg>, v: nat, r: int, b: Block, es: seq<Event>)
    requires c.n >= 5 * c.f + 1
    ensures !Stuck(c, ms, v, r, b, es)
  {
    if Stuck(c, ms, v, r, b, es) {
      var voters, conflicting, nullifiers :=
        Voters(c, ms, b), ConflictingVoters(c, ms, b) - c.byz, Nullifiers(c, ms, v);
      CounterReaches(es, c, ms, b);
      forall p | p in Replicas(c) - c.byz
        ensures p in voters + conflicting + nullifiers
      {
        assert Correct(c, p);
      }
      SubsetSize(Replicas(c), c.byz + voters + conflicting + nullifiers);
      assert false;
    }
  }

  // ---- Small systems ----

  /** A view in which every vote of `voters` is for `b` hears all of them. */
  lemma {:induction false} Arrivals(voters: set<int>, b: Block) returns (es: seq<Event>)
    ensures es != [] && es[0] == Fixed(b, {}) && OneHash(es, b)
    ensures forall e :: e in es ==> e == Fixed(b, {}) || (e.Arrive? && e.ballot.hash == b && e.ballot.peer in voters)
    ensures forall p :: p in voters ==> Arrive(Ballot(p, b)) in es
    decreases |voters|
  {
    if voters == {} {
      es := [Fixed(b, {})];
    } else {
      var p := Member(voters);
      var rest := Arrivals(voters - {p}, b);
      es := rest + [Arrive(Ballot(p, b))];
    }
  }

  lemma {:induction false} FixedIsKnown(es: seq<Event>, b: Block)
    requires es != [] && es[0] == Fixed(b, {})
    ensures After(es).hash.Some?
  {
    if |es| > 1 {
      FixedIsKnown(es[..|es| - 1], b);
    }
  }

  /** Votes for one block only are not counted as conflicting. */
  lemma {:induction false} NoConflicts(c: Config, ms: set<Msg>, b: Block) returns (es: seq<Event>)
    requires ConflictingVoters(c, ms, b) == {}
    ensures HearsAll(es, c, ms, b) && After(es).hash.Some? && After(es).invalid == 0
  {
    es := Arrivals(Voters(c, ms, b), b);
    FixedIsKnown(es, b);
    forall p, g | Vote(p, g) in ms && View(g) == View(b) && p in Replicas(c)
      ensures g == b
    {
      if g != b {
        assert VotesOther(ms, p, b);
      }
    }
    CounterIs(es, b);
    HeardAreConflicting(es, c, ms, b);
    TallyOfRun(es, b);
    RepeatsNeedCounted(es, b);
    CountedConflict(es, b);
  }

  lemma {:induction false} FirstViewSpeaks(first: set<int>, nullifiers: set<int>, p: int)
    requires p in first || p in nullifiers
    ensures var ms := FirstView(first, {}, nullifiers); VotedInView(ms, p, 1) || Nullify(p, 1) in ms
  {
    if p in first {
      assert Vote(p, FIRST) in FirstView(first, {}, nullifiers);
    }
  }

  ghost predicate CanStick(n: nat, f: nat) {
    exists byz: set<int>, ms, v, r, b, es :: Stuck(Config(n, f, byz), ms, v, r, b, es)
  }

  /** No conflicting votes and at most 2F nullifiers are too little evidence. */
  lemma {:induction false} TooLittleToLeave(c: Config, ms: set<Msg>, es: seq<Event>)
    requires ValidConfig(c) && Inv(c, ms) && Correct(c, 0) && Vote(0, FIRST) in ms && Nullify(0, 1) !in ms
    requires forall p :: Correct(c, p) ==> VotedInView(ms, p, 1) || Nullify(p, 1) in ms
    requires |Voters(c, ms, FIRST)| <= 2 * c.f && |Nullifiers(c, ms, 1)| <= 2 * c.f
    requires HearsAll(es, c, ms, FIRST) && After(es).hash.Some? && After(es).invalid == 0
    ensures CanStick(c.n, c.f)
  {
    assert c == Config(c.n, c.f, c.byz);
    assert Stuck(c, ms, 1, 0, FIRST, es);
  }

  /** The correct replicas, in two parts that are both too small. */
  ghost predicate Sides(c: Config, first: set<int>, nullifiers: set<int>) {
    && ValidConfig(c) && (forall p :: p in first ==> p !in nullifiers)
    && (forall p :: p in first || p in nullifiers <==> Correct(c, p))
    && 0 in first && |first| <= 2 * c.f && |nullifiers| <= 2 * c.f
  }

  lemma {:induction false} FirstViewSticks(c: Config, first: set<int>, nullifiers: set<int>)
    requires Sides(c, first, nullifiers)
    ensures CanStick(c.n, c.f)
  {
    var ms := FirstView(first, {}, nullifiers);
    assert first <= Replicas(c) && nullifiers <= Replicas(c);
    FirstViewCounts(c, first, {}, nullifiers);
    FirstViewInv(c, first, {}, nullifiers);
    var es := NoConflicts(c, ms, FIRST);
    forall p | Correct(c, p)
      ensures VotedInView(ms, p, 1) || Nullify(p, 1) in ms
    {
      FirstViewSpeaks(first, nullifiers, p);
    }
    TooLittleToLeave(c, ms, es);
  }

  /** The first `m` replicas and the correct ones after them. */
  lemma {:induction false} RangesAreSides(n: nat, f: nat, m: nat)
    requires f < n && 0 < m <= n - f && m <= 2 * f && n - f - m <= 2 * f
    ensures Sides(Config(n, f, Range(n - f, n)), Range(0, m), Range(m, n - f))
  {
  }

  /** Up to 2F correct replicas vote for one block, the other correct ones nullify,
      and the Byzantine ones stay silent. */
  lemma {:induction false} SmallSystemsStick(n: nat, f: nat)
    requires f < n <= 5 * f
    ensures CanStick(n, f)
  {
    var m := if 2 * f < n - f then 2 * f else n - f;
    RangesAreSides(n, f, m);
    FirstViewSticks(Config(n, f, Range(n - f, n)), Range(0, m), Range(m, n - f));
  }

  /** A view can get stuck exactly when N <= 5F. */
  lemma {:induction false} StuckExactly(n: nat, f: nat)
    requires f < n
    ensures CanStick(n, f) <==> n <= 5 * f
  {
    if n <= 5 * f {
      SmallSystemsStick(n, f);
    } else {
      forall byz: set<int>, ms, v, r, b, es
        ensures !Stuck(Config(n, f, byz), ms, v, r, b, es)
      {
        NotStuck(Config(n, f, byz), ms, v, r, b, es);
      }
    }
  }
}
