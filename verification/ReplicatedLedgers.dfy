/** The end-to-end safety theorem: the ledgers of correct replicas agree. */
module ReplicatedLedgers {
  import opened Wrappers
  import opened Blocks
  import opened ChainState
  import opened Finalization
  import opened ChainRuns
  import opened DeferredFinalization
  import Protocol

  /** A run of one replica whose votes were sent in a run of the protocol. */
  ghost predicate VotedRun(q: nat, run: Run, conf: Protocol.Config, ms: set<Protocol.Msg>) {
    IsRun(q, run) && forall i :: 0 <= i < |run.states| ==> VotesWereSent(run.states[i], conf, ms)
  }

  /** The replica holds every ancestor above its tip when it finalizes. */
  ghost predicate HeldStep(c: Chain, q: nat, step: Step) {
    step.FinalizeAt? ==> HeldFor(c, q, step.v)
  }

  ghost predicate HeldRun(q: nat, run: Run)
    requires |run.steps| < |run.states|
  {
    forall i :: 0 <= i < |run.steps| ==> HeldStep(run.states[i], q, run.steps[i])
  }

  /** Messages `ms` are those of some state of a run of the protocol. */
  ghost predicate Sent(conf: Protocol.Config, ms: set<Protocol.Msg>) {
    && Protocol.ValidConfig(conf) && conf.n >= 3 * conf.f + 1
    && exists run, i :: Protocol.IsRun(conf, run) && 0 <= i < |run.states| && run.states[i] == ms
  }

  ghost predicate Supported(q: nat, run: Run, conf: Protocol.Config, ms: set<Protocol.Msg>) {
    VotedRun(q, run, conf, ms) && Sent(conf, ms) && q == conf.n - conf.f
  }

  /** On sent votes, a finalization is anchored exactly if its ancestors are held. */
  lemma {:induction false} AnchoredIffHeld(c: Chain, q: nat, v: nat, conf: Protocol.Config, ms: set<Protocol.Msg>)
    requires Sent(conf, ms) && q == conf.n - conf.f && VotesWereSent(c, conf, ms) && TipFinal(c, conf, ms)
    requires Good(c) && Settled(c) && v != c.current
    ensures Anchored(c, q, v) <==> HeldFor(c, q, v)
    ensures Anchored(c, q, v) ==> TipFinal(Finalize(c, q, v).0, conf, ms)
  {
    AllOrNothing(c, q, v);
    if Sweeps(c, q, v) {
      var run, i :| Protocol.IsRun(conf, run) && 0 <= i < |run.states| && run.states[i] == ms;
      assert Voted(c, q, v);
      VotedExtendsTip(c, q, conf, run, i, v);
      AnchoredExactly(c, q, v);
    }
  }

  lemma {:induction false} TipMovesByFinalizing(c: Chain, q: nat, step: Step, c': Chain)
    requires Next(c, q, step, c') && !step.FinalizeAt?
    ensures c'.tip == c.tip
  {
  }

  /** What holds in a state before which every finalization was anchored. */
  ghost predicate Firm(c: Chain, conf: Protocol.Config, ms: set<Protocol.Msg>) {
    Good(c) && Settled(c) && TipFinal(c, conf, ms)
  }

  ghost predicate AnchoredStep(c: Chain, q: nat, step: Step) {
    step.FinalizeAt? ==> Anchored(c, q, step.v)
  }

  lemma {:induction false} StepIsFirm(q: nat, run: Run, conf: Protocol.Config, ms: set<Protocol.Msg>, i: nat)
    requires Supported(q, run, conf, ms) && i < |run.steps| && Firm(run.states[i], conf, ms)
    ensures AnchoredStep(run.states[i], q, run.steps[i]) <==> HeldStep(run.states[i], q, run.steps[i])
    ensures AnchoredStep(run.states[i], q, run.steps[i]) ==> Firm(run.states[i + 1], conf, ms)
  {
    var c, step, c' := run.states[i], run.steps[i], run.states[i + 1];
    if step.FinalizeAt? {
      AnchoredIffHeld(c, q, step.v, conf, ms);
    } else {
      TipMovesByFinalizing(c, q, step, c');
    }
    if AnchoredStep(c, q, step) {
      StructuredPreserved(c, q, step, c');
      SettledPreserved(c, q, step, c');
    }
  }

  /** As long as the ancestors are held, the tip is L-notarized and the ledger leads to it. */
  lemma {:induction false} HeldIsFirm(q: nat, run: Run, conf: Protocol.Config, ms: set<Protocol.Msg>, i: nat)
    requires Supported(q, run, conf, ms) && i < |run.states|
    requires forall k :: 0 <= k < i ==> HeldStep(run.states[k], q, run.steps[k])
    ensures Firm(run.states[i], conf, ms)
  {
    if i > 0 {
      HeldIsFirm(q, run, conf, ms, i - 1);
      StepIsFirm(q, run, conf, ms, i - 1);
    }
  }

  lemma {:induction false} AnchoredIsHeld(q: nat, run: Run, conf: Protocol.Config, ms: set<Protocol.Msg>, i: nat)
    requires Supported(q, run, conf, ms) && i <= |run.steps|
    requires forall k :: 0 <= k < i ==> AnchoredStep(run.states[k], q, run.steps[k])
    ensures Firm(run.states[i], conf, ms)
    ensures forall k :: 0 <= k < i ==> HeldStep(run.states[k], q, run.steps[k])
  {
    if i > 0 {
      AnchoredIsHeld(q, run, conf, ms, i - 1);
      StepIsFirm(q, run, conf, ms, i - 1);
    }
  }

  /** A run on sent votes is anchored exactly if every ancestor above the tip is held
      whenever a block is finalized. */
  lemma {:induction false} SupportedRunIsAnchored(q: nat, run: Run, conf: Protocol.Config, ms: set<Protocol.Msg>)
    requires Supported(q, run, conf, ms)
    ensures AnchoredRun(q, run) <==> HeldRun(q, run)
  {
    if HeldRun(q, run) {
      forall i | 0 <= i < |run.steps|
        ensures AnchoredStep(run.states[i], q, run.steps[i])
      {
        HeldIsFirm(q, run, conf, ms, i);
        StepIsFirm(q, run, conf, ms, i);
      }
      assert forall i :: 0 <= i < |run.steps| && run.steps[i].FinalizeAt? ==>
        AnchoredStep(run.states[i], q, run.steps[i]);
    }
    if AnchoredRun(q, run) {
      assert forall i :: 0 <= i < |run.steps| ==> AnchoredStep(run.states[i], q, run.steps[i]);
      AnchoredIsHeld(q, run, conf, ms, |run.steps|);
    }
  }

  // ---- The ledger is one chain ----

  /** No finalization stops half way. */
  ghost predicate NoneFails(q: nat, run: Run)
    requires |run.steps| < |run.states|
  {
    forall i :: 0 <= i < |run.steps| && run.steps[i].FinalizeAt? ==>
      !Finalize(run.states[i], q, run.steps[i].v).1.Failed?
  }

  ghost predicate ChainStep(c: Chain) {
    IsPath(Genesis, c.ledger, c.tip)
  }

  /** A completed finalization that keeps the ledger one chain was anchored. */
  lemma {:induction false} ChainIsAnchored(c: Chain, q: nat, v: nat)
    requires Good(c) && Settled(c) && v != c.current && !Finalize(c, q, v).1.Failed?
    requires ChainStep(Finalize(c, q, v).0)
    ensures Anchored(c, q, v)
  {
    AllOrNothing(c, q, v);
    if Sweeps(c, q, v) {
      LedgerStaysOneChain(c, q, v);
    }
  }

  lemma {:induction false} ChainIsHeld(q: nat, run: Run, conf: Protocol.Config, ms: set<Protocol.Msg>, i: nat)
    requires Supported(q, run, conf, ms) && i <= |run.steps| && NoneFails(q, run)
    requires forall k :: 0 <= k < |run.states| ==> ChainStep(run.states[k])
    ensures Firm(run.states[i], conf, ms)
    ensures forall k :: 0 <= k < i ==> HeldStep(run.states[k], q, run.steps[k])
  {
    if i > 0 {
      ChainIsHeld(q, run, conf, ms, i - 1);
      assert ChainStep(run.states[i]);
      if run.steps[i - 1].FinalizeAt? {
        ChainIsAnchored(run.states[i - 1], q, run.steps[i - 1].v);
      }
      StepIsFirm(q, run, conf, ms, i - 1);
    }
  }

  /** Over a run on sent votes in which no finalization stops half way, the ledger is one
      chain from genesis to the tip in every state exactly if the ancestors are held. */
  lemma {:induction false} LedgerIsChainExactly(q: nat, run: Run, conf: Protocol.Config, ms: set<Protocol.Msg>)
    requires Supported(q, run, conf, ms) && NoneFails(q, run)
    ensures (forall i :: 0 <= i < |run.states| ==> ChainStep(run.states[i])) <==> HeldRun(q, run)
  {
    if HeldRun(q, run) {
      forall i | 0 <= i < |run.states|
        ensures ChainStep(run.states[i])
      {
        HeldIsFirm(q, run, conf, ms, i);
      }
    }
    if forall i :: 0 <= i < |run.states| ==> ChainStep(run.states[i]) {
      ChainIsHeld(q, run, conf, ms, |run.steps|);
    }
  }

  // ---- Two replicas ----

  /** The blocks from genesis to `b`. */
  function Ancestry(b: Hash): seq<Block> {
    if b.Genesis? then [] else Ancestry(b.parent) + [b]
  }

  lemma {:induction false} PathIsAncestry(a: Hash, s: seq<Block>, b: Hash)
    requires IsPath(a, s, b)
    ensures Ancestry(b) == Ancestry(a) + s
    decreases |s|
  {
    if s != [] {
      PathIsAncestry(s[0], s[1..], b);
      assert s == [s[0]] + s[1..];
    }
  }

  lemma {:induction false} AncestryGrows(b: Hash, a: Hash)
    requires Extends(b, a)
    ensures Ancestry(a) <= Ancestry(b)
  {
    if b != a {
      AncestryGrows(b.parent, a);
    }
  }

  lemma {:induction false} TipsAgree(conf: Protocol.Config, ms: set<Protocol.Msg>, c: Chain, d: Chain)
    requires Sent(conf, ms) && TipFinal(c, conf, ms) && TipFinal(d, conf, ms)
    ensures Extends(c.tip, d.tip) || Extends(d.tip, c.tip)
  {
    if c.tip.Genesis? {
      ExtendsGenesis(d.tip);
    } else if d.tip.Genesis? {
      ExtendsGenesis(c.tip);
    } else {
      var run, i :| Protocol.IsRun(conf, run) && 0 <= i < |run.states| && run.states[i] == ms;
      Protocol.Consistency(conf, run, i, c.tip, d.tip);
    }
  }

  /** At any two moments of any two replicas that hold the ancestors of what they finalize,
      one ledger is a prefix of the other. */
  lemma {:induction false} LedgersAgree(
    q: nat, conf: Protocol.Config, ms: set<Protocol.Msg>, run: Run, i: nat, run': Run, j: nat)
    requires Supported(q, run, conf, ms) && HeldRun(q, run) && i < |run.states|
    requires Supported(q, run', conf, ms) && HeldRun(q, run') && j < |run'.states|
    ensures run.states[i].ledger <= run'.states[j].ledger || run'.states[j].ledger <= run.states[i].ledger
  {
    var c, d := run.states[i], run'.states[j];
    HeldIsFirm(q, run, conf, ms, i);
    HeldIsFirm(q, run', conf, ms, j);
    PathIsAncestry(Genesis, c.ledger, c.tip);
    PathIsAncestry(Genesis, d.ledger, d.tip);
    assert Ancestry(c.tip) == c.ledger && Ancestry(d.tip) == d.ledger;
    TipsAgree(conf, ms, c, d);
    if Extends(c.tip, d.tip) {
      AncestryGrows(c.tip, d.tip);
    } else {
      AncestryGrows(d.tip, c.tip);
    }
  }
}
