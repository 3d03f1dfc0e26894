/** The message-level protocol: replicas vote and nullify, and every run keeps the
    finalized blocks on one branch. */
module Protocol {
  import opened Blocks
  import opened FiniteSets

  datatype Msg = Vote(sender: int, block: Block) | Nullify(sender: int, view: nat)

  /** `n` replicas numbered from 0, of which those in `byz` may send anything. */
  datatype Config = Config(n: nat, f: nat, byz: set<int>)

  function Replicas(c: Config): set<int> {
    Range(0, c.n)
  }

  ghost predicate ValidConfig(c: Config) {
    c.f <= c.n && c.byz <= Replicas(c) && |c.byz| <= c.f
  }

  predicate Correct(c: Config, r: int) {
    0 <= r < c.n && r !in c.byz
  }

  ghost predicate VotedInView(ms: set<Msg>, r: int, v: nat) {
    exists b :: Vote(r, b) in ms && View(b) == v
  }

  ghost function Voters(c: Config, ms: set<Msg>, b: Block): set<int> {
    set r | r in Replicas(c) && Vote(r, b) in ms
  }

  ghost function Nullifiers(c: Config, ms: set<Msg>, v: nat): set<int> {
    set r | r in Replicas(c) && Nullify(r, v) in ms
  }

  /** M-notarization: 2F+1 votes. Genesis is notarized from the start. */
  ghost predicate MNotarized(c: Config, ms: set<Msg>, b: Block) {
    b.Genesis? || |Voters(c, ms, b)| >= 2 * c.f + 1
  }

  /** L-notarization: N-F votes. */
  ghost predicate LNotarized(c: Config, ms: set<Msg>, b: Block) {
    b.Block? && |Voters(c, ms, b)| >= c.n - c.f
  }

  /** A nullification: 2F+1 nullify messages. */
  ghost predicate Nullified(c: Config, ms: set<Msg>, v: nat) {
    |Nullifiers(c, ms, v)| >= 2 * c.f + 1
  }

  /** `p` said something incompatible with finalizing `b`: it nullified the view or
      voted for another block of it. */
  ghost predicate Against(ms: set<Msg>, p: int, b: Block) {
    || Nullify(p, View(b)) in ms
    || exists b' :: Vote(p, b') in ms && View(b') == View(b) && b' != b
  }

  ghost function Opponents(c: Config, ms: set<Msg>, b: Block): set<int> {
    set p | p in Replicas(c) && Against(ms, p, b)
  }

  /** What a proposal needs before a correct replica votes for it: a notarized
      parent of an earlier view and a nullification of every view in between. */
  ghost predicate Justified(c: Config, ms: set<Msg>, b: Block) {
    && b.Block?
    && View(b.parent) < b.view
    && MNotarized(c, ms, b.parent)
    && forall v {:trigger Nullified(c, ms, v)} :: View(b.parent) < v < b.view ==> Nullified(c, ms, v)
  }

  /** A correct replica votes once per view, not after nullifying it, and either
      for a justified proposal or to follow an M-notarization it received. */
  ghost predicate MayVote(c: Config, ms: set<Msg>, recv: set<Msg>, r: int, b: Block) {
    && b.Block?
    && !VotedInView(ms, r, b.view)
    && Nullify(r, b.view) !in ms
    && (Justified(c, recv, b) || MNotarized(c, recv, b))
  }

  /** A correct replica that has voted for `b` nullifies its view only on the word
      of more than 2F distinct peers. */
  ghost predicate MayNullify(c: Config, ms: set<Msg>, recv: set<Msg>, r: int, v: nat) {
    forall b :: Vote(r, b) in ms && View(b) == v ==> |Opponents(c, recv, b)| > 2 * c.f
  }

  datatype Step =
    | VoteStep(r: int, b: Block, recv: set<Msg>)
    | NullifyStep(r: int, v: nat, recv: set<Msg>)
    | ByzantineStep(m: Msg)

  /** One step adds one message; a correct replica decides on the part of the
      messages it has received. */
  ghost predicate Next(c: Config, ms: set<Msg>, step: Step, ms': set<Msg>) {
    match step
    case VoteStep(r, b, recv) =>
      Correct(c, r) && recv <= ms && MayVote(c, ms, recv, r, b) && ms' == ms + {Vote(r, b)}
    case NullifyStep(r, v, recv) =>
      Correct(c, r) && recv <= ms && MayNullify(c, ms, recv, r, v) && ms' == ms + {Nullify(r, v)}
    case ByzantineStep(m) =>
      m.sender in c.byz && ms' == ms + {m}
  }

  /** What the rules allow: a correct replica that is silent in a view votes for a justified
      block of it, and follows an M-notarization that it received without the justification;
      it nullifies any view that it has not voted in. */
  lemma {:induction false} RulesAllow(c: Config, ms: set<Msg>, recv: set<Msg>, r: int, b: Block)
    requires Correct(c, r) && recv <= ms && b.Block?
    requires (forall x :: Vote(r, x) in ms ==> View(x) != View(b)) && Nullify(r, View(b)) !in ms
    ensures Justified(c, recv, b) ==> Next(c, ms, VoteStep(r, b, recv), ms + {Vote(r, b)})
    ensures |Voters(c, recv, b)| >= 2 * c.f + 1 ==> Next(c, ms, VoteStep(r, b, recv), ms + {Vote(r, b)})
    ensures Next(c, ms, NullifyStep(r, View(b), recv), ms + {Nullify(r, View(b))})
  {
  }

  datatype Run = Run(states: seq<set<Msg>>, steps: seq<Step>)

  ghost predicate IsRun(c: Config, run: Run) {
    && |run.states| == |run.steps| + 1
    && run.states[0] == {}
    && forall i :: 0 <= i < |run.steps| ==> Next(c, run.states[i], run.steps[i], run.states[i + 1])
  }

  // ---- Monotonicity ----

  lemma {:induction false} VotersGrow(c: Config, ms: set<Msg>, ms': set<Msg>, b: Block)
    requires ms <= ms'
    ensures Voters(c, ms, b) <= Voters(c, ms', b)
    ensures |Voters(c, ms, b)| <= |Voters(c, ms', b)|
  {
    SubsetSize(Voters(c, ms, b), Voters(c, ms', b));
  }

  lemma {:induction false} NullifiersGrow(c: Config, ms: set<Msg>, ms': set<Msg>, v: nat)
    requires ms <= ms'
    ensures |Nullifiers(c, ms, v)| <= |Nullifiers(c, ms', v)|
  {
    SubsetSize(Nullifiers(c, ms, v), Nullifiers(c, ms', v));
  }

  lemma {:induction false} JustifiedGrows(c: Config, ms: set<Msg>, ms': set<Msg>, b: Block)
    requires ms <= ms' && Justified(c, ms, b)
    ensures Justified(c, ms', b)
  {
    VotersGrow(c, ms, ms', b.parent);
    forall v | View(b.parent) < v < b.view
      ensures Nullified(c, ms', v)
    {
      assert Nullified(c, ms, v);
      NullifiersGrow(c, ms, ms', v);
    }
  }

  /** A quorum of more than F voters contains a correct one. */
  lemma {:induction false} CorrectVoter(c: Config, ms: set<Msg>, b: Block) returns (r: int)
    requires ValidConfig(c)
    requires |Voters(c, ms, b)| > c.f
    ensures Correct(c, r) && Vote(r, b) in ms
  {
    if Voters(c, ms, b) <= c.byz {
      SubsetSize(Voters(c, ms, b), c.byz);
      assert false;
    }
    r :| r in Voters(c, ms, b) && r !in c.byz;
  }

  // ---- The invariant of every run ----

  /** Correct replicas vote at most once in a view. */
  ghost predicate VoteOnce(c: Config, ms: set<Msg>) {
    forall r, b, b' ::
      Correct(c, r) && Vote(r, b) in ms && Vote(r, b') in ms && View(b) == View(b') ==> b == b'
  }

  /** Whatever a correct replica voted for is justified. */
  ghost predicate VotesJustified(c: Config, ms: set<Msg>) {
    forall r, b :: Correct(c, r) && Vote(r, b) in ms ==> Justified(c, ms, b)
  }

  /** The replicas that can never again vote for `b`: the Byzantine ones, and the
      correct ones that spoke against `b` without having voted for it. */
  ghost function Lost(c: Config, ms: set<Msg>, b: Block): set<int> {
    set p | p in Replicas(c) && (p in c.byz || (Against(ms, p, b) && Vote(p, b) !in ms))
  }

  ghost predicate Defected(c: Config, ms: set<Msg>, b: Block) {
    exists r :: Correct(c, r) && Vote(r, b) in ms && Nullify(r, View(b)) in ms
  }

  /** Once a correct voter of `b` has nullified its view, more than 2F replicas
      are lost to `b` for good. */
  ghost predicate DefectionsCovered(c: Config, ms: set<Msg>) {
    forall b :: Defected(c, ms, b) ==> |Lost(c, ms, b)| > 2 * c.f
  }

  ghost predicate Inv(c: Config, ms: set<Msg>) {
    VoteOnce(c, ms) && VotesJustified(c, ms) && DefectionsCovered(c, ms)
  }

  lemma {:induction false} JustifiedPreserved(c: Config, ms: set<Msg>, step: Step, ms': set<Msg>)
    requires ValidConfig(c) && Inv(c, ms) && Next(c, ms, step, ms')
    ensures VotesJustified(c, ms')
  {
    forall r, b | Correct(c, r) && Vote(r, b) in ms'
      ensures Justified(c, ms', b)
    {
      if Vote(r, b) in ms {
        JustifiedGrows(c, ms, ms', b);
      } else {
        var recv := step.recv;
        if Justified(c, recv, b) {
          JustifiedGrows(c, recv, ms', b);
        } else {
          VotersGrow(c, recv, ms, b);
          var r0 := CorrectVoter(c, ms, b);
          JustifiedGrows(c, ms, ms', b);
        }
      }
    }
  }

  lemma {:induction false} AgainstGrows(ms: set<Msg>, ms': set<Msg>, p: int, b: Block)
    requires ms <= ms' && Against(ms, p, b)
    ensures Against(ms', p, b)
  {
  }

  /** No step brings a lost replica back. */
  lemma {:induction false} LostGrows(c: Config, ms: set<Msg>, step: Step, ms': set<Msg>, b: Block)
    requires Next(c, ms, step, ms')
    ensures Lost(c, ms, b) <= Lost(c, ms', b)
    ensures |Lost(c, ms, b)| <= |Lost(c, ms', b)|
  {
    forall p | p in Lost(c, ms, b)
      ensures p in Lost(c, ms', b)
    {
      if p !in c.byz {
        AgainstGrows(ms, ms', p, b);
        if Vote(p, b) in ms' {
          assert false;
        }
      }
    }
    SubsetSize(Lost(c, ms, b), Lost(c, ms', b));
  }

  /** The evidence for a first defection is itself lost to `b`. */
  lemma {:induction false} EvidenceIsLost(c: Config, ms: set<Msg>, recv: set<Msg>, b: Block)
    requires VoteOnce(c, ms) && recv <= ms && !Defected(c, ms, b)
    requires |Opponents(c, recv, b)| > 2 * c.f
    ensures |Lost(c, ms, b)| > 2 * c.f
  {
    forall p | p in Opponents(c, recv, b)
      ensures p in Lost(c, ms, b)
    {
      AgainstGrows(recv, ms, p, b);
    }
    SubsetSize(Opponents(c, recv, b), Lost(c, ms, b));
  }

  lemma {:induction false} DefectionsPreserved(c: Config, ms: set<Msg>, step: Step, ms': set<Msg>)
    requires ValidConfig(c) && Inv(c, ms) && Next(c, ms, step, ms')
    ensures DefectionsCovered(c, ms')
  {
    forall b | Defected(c, ms', b)
      ensures |Lost(c, ms', b)| > 2 * c.f
    {
      LostGrows(c, ms, step, ms', b);
      if !Defected(c, ms, b) {
        var r :| Correct(c, r) && Vote(r, b) in ms' && Nullify(r, View(b)) in ms';
        assert step.NullifyStep? && step.r == r && step.v == View(b);
        EvidenceIsLost(c, ms, step.recv, b);
      }
    }
  }

  lemma {:induction false} InvPreserved(c: Config, ms: set<Msg>, step: Step, ms': set<Msg>)
    requires ValidConfig(c) && Inv(c, ms) && Next(c, ms, step, ms')
    ensures Inv(c, ms')
  {
    JustifiedPreserved(c, ms, step, ms');
    DefectionsPreserved(c, ms, step, ms');
  }

  lemma {:induction false} InvOfRun(c: Config, run: Run, i: nat)
    requires ValidConfig(c) && IsRun(c, run) && i < |run.states|
    ensures Inv(c, run.states[i])
  {
    if i > 0 {
      InvOfRun(c, run, i - 1);
      InvPreserved(c, run.states[i - 1], run.steps[i - 1], run.states[i]);
    }
  }

  // ---- Quorum theorems ----

  /** The correct voters of an L-notarized block leave at most 2F other replicas. */
  lemma {:induction false} FewOthers(c: Config, ms: set<Msg>, b: Block, others: set<int>)
    requires ValidConfig(c) && LNotarized(c, ms, b)
    requires others <= Replicas(c)
    requires forall r :: r in others && Vote(r, b) in ms ==> r in c.byz
    ensures |others| <= 2 * c.f
  {
    var loyal := Voters(c, ms, b) - c.byz;
    SubsetSize(Voters(c, ms, b), loyal + c.byz);
    DisjointSize(loyal, others);
    SubsetSize(loyal + others, Replicas(c));
  }

  /** Lemma 5.3 of the Minimmit paper: a view with an L-notarized block is never
      nullified. */
  lemma {:induction false} NoNullificationOfFinalized(c: Config, ms: set<Msg>, b: Block)
    requires ValidConfig(c) && Inv(c, ms) && LNotarized(c, ms, b)
    ensures !Nullified(c, ms, View(b))
  {
    forall r | r in Lost(c, ms, b) && Vote(r, b) in ms
      ensures r in c.byz
    {
    }
    FewOthers(c, ms, b, Lost(c, ms, b));
    assert !Defected(c, ms, b);
    forall r | r in Nullifiers(c, ms, View(b)) && Vote(r, b) in ms
      ensures r in c.byz
    {
    }
    FewOthers(c, ms, b, Nullifiers(c, ms, View(b)));
  }

  /** An L-notarized block is the only block of its view that can be M-notarized. */
  lemma {:induction false} QuorumExclusion(c: Config, ms: set<Msg>, b: Block, b': Block)
    requires ValidConfig(c) && VoteOnce(c, ms)
    requires LNotarized(c, ms, b) && View(b) == View(b')
    requires |Voters(c, ms, b')| >= 2 * c.f + 1
    ensures b == b'
  {
    if b != b' {
      forall r | r in Voters(c, ms, b') && Vote(r, b) in ms
        ensures r in c.byz
      {
        assert r in Replicas(c);
      }
      FewOthers(c, ms, b, Voters(c, ms, b'));
      assert false;
    }
  }

  /** Every M-notarized block of the same or a later view extends an L-notarized one. */
  lemma {:induction false} NotarizedExtendsFinalized(c: Config, ms: set<Msg>, b: Block, b': Block)
    requires ValidConfig(c) && Inv(c, ms)
    requires LNotarized(c, ms, b) && View(b) > 0
    requires b'.Block? && MNotarized(c, ms, b') && View(b) <= View(b')
    ensures Extends(b', b)
    decreases b'
  {
    if View(b') == View(b) {
      QuorumExclusion(c, ms, b, b');
    } else {
      var r := CorrectVoter(c, ms, b');
      assert Justified(c, ms, b');
      NoNullificationOfFinalized(c, ms, b);
      assert View(b) <= View(b'.parent);
      NotarizedExtendsFinalized(c, ms, b, b'.parent);
    }
  }

  /** An L-notarized block is not of view 0. */
  lemma {:induction false} FinalizedAfterGenesis(c: Config, ms: set<Msg>, b: Block)
    requires ValidConfig(c) && Inv(c, ms) && c.n >= 3 * c.f + 1
    requires LNotarized(c, ms, b)
    ensures View(b) > 0 && MNotarized(c, ms, b)
  {
    var r := CorrectVoter(c, ms, b);
    assert Justified(c, ms, b);
  }

  /** Consistency: in every state of every run, any two finalized blocks lie on
      one branch. The bound N >= 3F+1 suffices; it follows from N >= 5F+1. */
  lemma {:induction false} Consistency(c: Config, run: Run, i: nat, b: Block, b': Block)
    requires ValidConfig(c) && c.n >= 3 * c.f + 1
    requires IsRun(c, run) && i < |run.states|
    requires LNotarized(c, run.states[i], b) && LNotarized(c, run.states[i], b')
    ensures Extends(b', b) || Extends(b, b')
  {
    var ms := run.states[i];
    InvOfRun(c, run, i);
    FinalizedAfterGenesis(c, ms, b);
    FinalizedAfterGenesis(c, ms, b');
    if View(b) <= View(b') {
      NotarizedExtendsFinalized(c, ms, b, b');
    } else {
      NotarizedExtendsFinalized(c, ms, b', b);
    }
  }

  /** Lemma 5.3 over runs. */
  lemma {:induction false} NeverFinalizedAndNullified(c: Config, run: Run, i: nat, b: Block)
    requires ValidConfig(c) && IsRun(c, run) && i < |run.states|
    ensures !(LNotarized(c, run.states[i], b) && Nullified(c, run.states[i], View(b)))
  {
    InvOfRun(c, run, i);
    if LNotarized(c, run.states[i], b) {
      NoNullificationOfFinalized(c, run.states[i], b);
    }
  }
}
