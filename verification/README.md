# Minimmit in Dafny

A model of the core of a Byzantine fault tolerant consensus node, with proofs. Replicas vote once per view. 2F+1 votes
(M-notarization) or 2F+1 nullify messages let a replica move to the next view, and N-F votes (L-notarization) finalize a
block together with its ancestors. The project has four parts.

* **The protocol and its counting arguments** (`Protocol`, `Evidence`, `Thresholds`, `VoteTallies`,
  `ForcedNullifications`, `StuckViews`, `Leaders`): messages of all replicas, correct and Byzantine. Every run that follows
  the documented rules keeps the finalized blocks on one branch. The evidence rule for nullifying after a vote, the counter
  of conflicting votes it reads, the forced nullifications and the round-robin leader are measured against what they are
  for, with exact bounds.
* **The chain of one replica** (`ChainState`, `Finalization`, `ChainRuns`, `StateDiffs`, `DeferredFinalization`,
  `ChainLaws`, `Limits`, `ReplicatedLedgers`, `LedgerDisagreements`, `ViewChains`, `StateMachines`): the map of
  non-finalized views, the backward walk and ascending sweep of finalization, pending state diffs, the
  deferred-finalization loop and the cascade, up to the theorem that the ledgers of any two replicas that hold the
  ancestors of what they finalize are prefixes of one another. The classes `ViewChain` and `StateMachine` update fields in
  place with the loops of the source. They are proved against the functions of `ChainState`, about which the properties
  over whole runs are proved. `ChainLaws` says on the fields of the map what these functions do, independently of how they
  are defined.
* **Threshold cryptography** (`PrimeField`, `Polynomials`, `Lagrange`, `Shamir`, `Groups`, `Threshold`,
  `Certificates`): Shamir sharing over a prime field, the same interpolation in the exponent of a group, and aggregated
  certificates over a bilinear pairing.
* **The transaction pool** (`PoolState`, `PoolInvariants`, `PoolRuns`, `PoolOutcomes`, `PoolLaws`, `TransactionPools`,
  `FeeMerge`, `PendingIterators`): the five indexes of the pool, what each operation does to them (`PoolLaws`), and the
  fee-ordered iteration over pending transactions, which is proved to be the one greedy merge of the senders' nonce runs.

`Wrappers`, `FiniteSets`, `Blocks` and `Arithmetic` hold what the parts share.

Modelling decisions:

* A hash is modelled by the block it is the hash of (a collision-free hash). Code that holds only a hash never looks
  inside it.
* `CtxOk` and `CtxStep` are the hypotheses about the messages stored in a view: an M-notarization of a view is for a
  block of that view whose ancestors lie in earlier views, and votes, notarizations and nullifications are only ever
  added.
* A run of the chain enters a view as the callers of the progress functions do: on the notarized hash of the current view,
  or on the selected parent after a nullification or a cascade. A cascade needs an earlier view that is M-notarized and
  nullified (`Triggers`). `Enterable` is what the progress functions need of a parent; `ParentsAreEnterable` proves it of
  both values.
* The scalar field is the integers modulo a prime, and groups and pairings are given by their laws as hypotheses.
  Randomness, clocks (`Instant::now`) and signature checks of proposals are parameters.
* Storage is modelled by what has been written to it: the sequence of finalized blocks, the sequence of applied state
  diffs and the set of views stored as nullified.
* Integers are unbounded.
* Automatic induction is switched off for every lemma, so that each proof is the one written.

Where the code does less than its documentation says, the model follows the code, and the lemmas say exactly when the
documented property holds:

* The comment in `nullify_view` says that more than F conflicting votes mean that a block cannot be finalized. The exact
  bound is 2F (`ConflictsRuleOutFinalization`). With the thresholds F and 2F of the source, runs exist that nullify a
  finalized view and then finalize a conflicting block. Under this test alone, every run is safe exactly if the
  thresholds are at least 2F and 4F, counted over distinct replicas (`EvidenceNeeded`, `SourceThresholdsBreak`).
* A replica also nullifies a view it has voted in because an earlier, M-notarized view is nullified (the cascade) or shows
  conflicting evidence (the range). The comment says that Lemma 5.3 makes this safe. With a safe test of the evidence it
  does so exactly for N = 3F+1, where no M-notarized view is ever nullified. With more replicas the cascade leaves finalized views behind, whatever the
  thresholds: the whole rule is safe exactly if the thresholds are at least 2F and 4F and N = 3F+1 (`SafeExactly`), so for
  N >= 5F+1 only with a single replica (`NoThresholdsHelp`).
* The number of conflicting votes is a counter of messages. It misses a peer whose vote for the block came first and
  counts every repetition of another one (`CounterIs`), so that no threshold on it suffices against one Byzantine replica
  (`NoThresholdOnCounter`, `CounterSafeExactly`).
* A proposal may replace the hash that an own vote gave to the view. The votes recorded for the old hash stay and count
  for the new one (`ReplacedHashKeepsVotes`); the counter goes on as from a fresh view (`ReplacedHash`).
* Only the direct parent of a finalized block is compared with the committed tip, so the ledger stays one chain exactly
  if the whole walk ends at the tip (`LedgerStaysOneChain`, `LedgerCanDetach`), and two replicas can write ledgers that
  disagree although all messages follow the documented rules (`LedgersCanDisagree`).
* A sweep that meets an ancestor without M-notarization stops half way (`AllOrNothing`, `SweepCanStop`).
* Flushing pending diffs up to a view also applies the diff of a view that the sweep keeps although it is off the chain
  (`OnlyCanonicalDiffsApplied`, `KeptDiffIsApplied`).
* A parked proposal leaves its state diff behind. If another block of the view is notarized and recovered, that diff is
  published and applied for the other block (`CommittedStateExactly`, `ForeignDiffIsApplied`).
* `update_sender_nonce` leaves a sender without its entry in the fee index exactly if something was queued for the new
  nonce (`UpdateKeepsHeadsExactly`, `HeadCanBeMissing`).
* `try_add` answers `AddedQueued` for a transaction that the queue limit drops at once (`TryAddAnswers`), a rejection can
  lose the queued transaction that was to be replaced (`RejectionExactly`), and a full pool without heads grows
  (`ExceedsCapacityExactly`).

## Model

| member | source | states |
|---|---|---|
| `Protocol.InvPreserved` | README.md:100-107 | every step of every replica, correct or Byzantine, keeps: one vote per view, votes justified by a notarized parent and nullified gaps, and defections covered by more than 2F opponents |
| `Protocol.RulesAllow` | README.md:100-107 | what the rules allow: a silent correct replica votes for a justified block, follows an M-notarization it received, and nullifies a view it has not voted in |
| `Protocol.QuorumExclusion` | README.md:37-44 | for every N, F and Byzantine set of at most F, a block with N-F votes excludes 2F+1 votes for any other block of its view |
| `Protocol.NoNullificationOfFinalized` | README.md:100-107 | Lemma 5.3 under the documented rules: no view has both N-F votes for a block and 2F+1 nullify messages |
| `Protocol.NotarizedExtendsFinalized` | README.md:100-107 | every M-notarized block of the same or a later view descends from every L-notarized block |
| `Protocol.Consistency` | README.md:100-107 | in every state of every run, of two L-notarized blocks one is an ancestor of the other |
| `Protocol.NeverFinalizedAndNullified` | README.md:100-107 | Lemma 5.3 in every state of every run that follows the documented rules |
| `Evidence.CombinedCount` | consensus/src/consensus_manager/state_machine.rs:918-922 | over distinct replicas, conflicting voters and nullifiers together exceed the distinct opponents by those that both voted otherwise and nullified |
| `Thresholds.SourceThresholds` | consensus/src/consensus_manager/state_machine.rs:916-930 | on distinct replicas, the guard with thresholds F and 2F is the evidence test of the source |
| `Thresholds.EvidenceNeeded` | consensus/src/consensus_manager/state_machine.rs:916-930 | for N >= 3F+1 and under the evidence test alone, all runs keep Lemma 5.3, and all keep the finalized blocks on one branch, exactly if the test asks for more than 2F conflicting voters and a combined count of more than 4F |
| `Thresholds.SourceThresholdsBreak` | consensus/src/consensus_manager/state_machine.rs:922-925 | with the thresholds of the source and F >= 1 there are runs that nullify a finalized view, and runs that finalize conflicting blocks |
| `ForcedNullifications.NotarizedHasFewOpponents` | consensus/src/consensus_manager/state_machine.rs:910-915 | for N = 3F+1, in every state of the documented rules a block with 2F+1 votes has at most 2F opponents, so that its view is not nullified and nothing is forced |
| `ForcedNullifications.CascadeBreaks` | consensus/src/consensus_manager/view_manager.rs:1328-1344 | for N >= 3F+2 and any test of the evidence, there are runs in which the correct replicas cascade out of a finalized view and nullify it, and runs that then finalize a conflicting block |
| `ForcedNullifications.SafeExactly` | consensus/src/consensus_manager/state_machine.rs:542-645 | for N >= 3F+1 and with the cascade, with or without range nullification, all runs keep Lemma 5.3, and all keep consistency, exactly if the thresholds are at least 2F and 4F and N = 3F+1 |
| `ForcedNullifications.SourceSafeExactly` | consensus/src/consensus_manager/state_machine.rs:896-943 | with the thresholds of the source, over distinct replicas, the same holds exactly for N = 1 |
| `ForcedNullifications.NoThresholdsHelp` | consensus/src/consensus_manager/state_machine.rs:896-943 | for N >= 5F+1 and any thresholds, the same holds exactly for N = 1 |
| `ForcedNullifications.CounterSafeExactly` | consensus/src/consensus_manager/view_context.rs:1129-1144 | with the counter of messages and any thresholds on it, the same holds exactly for N = 1 |
| `VoteTallies.ViewVotes.AddVote` | consensus/src/consensus_manager/view_context.rs:559-665 | a vote is recorded, set aside or counted by the checks of the source, and refused exactly if its peer has a recorded vote; all five answers, and the M-notarization made at the first moment with 2F+1 recorded votes |
| `VoteTallies.RecordedVotes` | consensus/src/consensus_manager/view_context.rs:638-659 | unless the hash is replaced, the recorded votes are votes for it by as many different peers |
| `VoteTallies.ViewVotes.FixHash` | consensus/src/consensus_manager/view_context.rs:690-714 | the loop sorts the votes set aside: those for the hash are recorded and the others counted |
| `VoteTallies.CounterIs` | consensus/src/consensus_manager/view_context.rs:575-636 | over every sequence of arriving votes under one hash, the counter is the number of conflicting peers, less those whose vote for the hash came first, plus the repeated votes of the others |
| `VoteTallies.ReplacedHash` | consensus/src/consensus_manager/view_context.rs:480-505 | over every sequence in which the hash is replaced, the counter is what it was plus what a fresh view of the new hash would count that has the recorded peers' votes |
| `VoteTallies.ReplacedHashKeepsVotes` | consensus/src/consensus_manager/view_context.rs:480-520 | the votes recorded for the old hash are among those counted for the new one |
| `VoteTallies.CountsVotersExactly` | consensus/src/consensus_manager/view_context.rs:575-636 | when all votes of the view are heard, the counter is the number of conflicting voters exactly if as many votes are repeated as peers are missed |
| `VoteTallies.OnePeerIsEvidence` | consensus/src/consensus_manager/view_context.rs:626-627 | F+1 conflicting votes of one peer make a replica that has voted nullify the view, whatever votes came with the hash |
| `VoteTallies.EquivocatorIsMissed` | consensus/src/consensus_manager/view_context.rs:575-580 | a peer whose vote for the hash came first is not counted when it votes otherwise |
| `VoteTallies.NoThresholdOnCounter` | consensus/src/consensus_manager/view_context.rs:1129-1144 | under the test of the counter alone and whatever its thresholds, all runs keep Lemma 5.3, and all keep consistency, exactly if F = 0 |
| `Evidence.ConflictsRuleOutFinalization` | consensus/src/consensus_manager/state_machine.rs:922-925 | k conflicting voters are compatible with finalization exactly if k <= 2F, so that the disjunct asking for F+1 does not rule it out |
| `StuckViews.CounterReaches` | consensus/src/consensus_manager/view_context.rs:575-636 | whatever the order and repetitions, the counter is at least the number of correct conflicting voters |
| `StuckViews.NotStuck` | consensus/src/consensus_manager/state_machine.rs:896-943 | for N >= 5F+1, once all correct replicas have spoken in a view and no block has 2F+1 votes, no correct replica that has not nullified and has heard all is refused, on the counter it reads |
| `StuckViews.StuckExactly` | consensus/src/consensus_manager/state_machine.rs:896-943 | some view can get stuck exactly if N <= 5F |
| `Leaders.NewRoundRobin` | consensus/src/consensus_manager/leader_manager.rs:48-72 | a manager is built exactly for a strictly sorted list of N replicas |
| `Leaders.RotatesInOrder` | consensus/src/consensus_manager/leader_manager.rs:76-80 | view 0 belongs to the replica with the least number, and every view to the next greater one after the leader before, or the least again |
| `Leaders.LeadsExactlyOnce` | consensus/src/consensus_manager/leader_manager.rs:76-80 | in any N consecutive views every replica leads exactly once |
| `Leaders.CorrectLeaderSoon` | consensus/src/consensus_manager/leader_manager.rs:76-80 | among any F+1 consecutive views one has a leader outside a set of at most F |
| `Finalization.SweepIsReady` | consensus/src/consensus_manager/view_chain.rs:1035-1084 | once the checks and the walk have passed, the walked views are in the map below the target, with their blocks |
| `Finalization.AllOrNothing` | consensus/src/consensus_manager/view_chain.rs:944-1134 | a rejected or deferred call changes nothing but the recovery list, a completed one decides the fate of every view up to the target (kept, written, or stored as nullified), and a started sweep completes exactly if every walked view is M-notarized |
| `Finalization.WrittenBlocksAreLinked` | consensus/src/consensus_manager/view_chain.rs:1039-1131 | the blocks that one finalization writes form a hash-linked path from the bottom of the walk to the target |
| `Finalization.LedgerStaysOneChain` | consensus/src/consensus_manager/view_chain.rs:1039-1131 | if the ledger was one chain from genesis to the tip, it is so afterwards exactly if the walk ended at the old tip |
| `Finalization.FinalizeUpToKeepsOrder` | consensus/src/validation/pending_state.rs:169-186 | flushing in two steps applies the same diffs in the same order as flushing once |
| `Finalization.OnlyCanonicalDiffsApplied` | consensus/src/consensus_manager/view_chain.rs:1156-1172 | the diffs applied by a finalization are those of the finalized chain exactly if no kept view up to the target had a pending diff |
| `ChainLaws.WalkExactly` | consensus/src/consensus_manager/view_chain.rs:1039-1066 | the backward walk visits exactly the views whose hash it comes to over views of the map with their blocks, and misses a block exactly if one of them lacks it |
| `ChainLaws.FinalizesExactly` | consensus/src/consensus_manager/view_chain.rs:944-1084 | on the fields of the map: a finalization starts to change the chain exactly if the view has N-F votes and its block, was not nullified, its parent is the tip or an earlier M-notarized view with its block and only nullified views in between, and no block is missing; when it is refused; and what it asks for when it waits |
| `ChainLaws.CompletesExactly` | consensus/src/consensus_manager/view_chain.rs:1279-1329 | it then completes exactly if every view on the way is M-notarized |
| `ChainLaws.FateExactly` | consensus/src/consensus_manager/view_chain.rs:1076-1131 | the fate of each view, on its fields: later ones untouched, those on the chain written, those awaiting their block kept, all others stored as nullified |
| `ChainLaws.WritesExactly` | consensus/src/consensus_manager/view_chain.rs:1076-1131 | the blocks appended to the ledger are exactly those of the views on the chain, linked by hash, ending with the target, which becomes the tip |
| `ChainLaws.AppliesExactly` | consensus/src/validation/pending_state.rs:169-186 | the diffs applied are exactly the pending ones up to the target, in ascending order, but those of views stored as nullified; later ones stay pending |
| `ChainLaws.FlushExactly` | consensus/src/validation/pending_state.rs:169-186 | flushing applies exactly the pending diffs up to a view, in ascending order |
| `ChainLaws.SearchesExactly` | consensus/src/consensus_manager/view_chain.rs:227-281 | the search accepts exactly the earlier views that pass the checks of finalization |
| `ChainLaws.FindsOldest` | consensus/src/consensus_manager/view_chain.rs:227-281 | it finds the least of them, and if it finds none, finalizing any earlier view is refused or waits and changes nothing |
| `ChainLaws.PassEnds` | consensus/src/consensus_manager/state_machine.rs:985-1018 | the loop ends below its limit only if no earlier view can be finalized, or the least one is deferred or fails |
| `ChainLaws.SelectsExactly` | consensus/src/consensus_manager/view_chain.rs:1561-1595 | the selected parent is the notarized hash of the last earlier view that neither a certificate nor this replica nullified, or else the tip |
| `ChainLaws.SelectedIsLive` | consensus/src/consensus_manager/view_chain.rs:1566-1573 | in every run the selected parent is not the block of a nullified view of the map, and the views after it are nullified or not M-notarized |
| `ChainLaws.ProposalCheckExactly` | consensus/src/consensus_manager/view_chain.rs:442-521 | when a proposal is accepted and when it waits, on the fields of the map |
| `ChainLaws.RefusesExactly` | consensus/src/consensus_manager/view_chain.rs:442-521 | a proposal is refused, without any change, exactly if the view is unknown or occupied, the parent is neither in the map nor the tip or has a nullification, or a view in between is not nullified |
| `ChainLaws.AcceptStores` | consensus/src/consensus_manager/view_context.rs:481-505 | an accepted block that fits is stored with its hash, its diff and the early voters, and nothing else changes but the published diff; one that does not fit is not stored |
| `ChainLaws.AwaitParks` | consensus/src/consensus_manager/view_chain.rs:525-530 | a waiting proposal is parked with its diff, and nothing else changes |
| `ChainLaws.RecoversExactly` | consensus/src/consensus_manager/view_chain.rs:292-330 | a recovered block is stored exactly if the view lacks its block and has its hash |
| `ChainLaws.PublishesExactly` | consensus/src/consensus_manager/view_chain.rs:1244-1252 | a diff is published exactly if its view is M-notarized, has one and is later than the last flush |
| `ChainLaws.StoresExactly` | consensus/src/consensus_manager/view_chain.rs:399-412 | a stored diff becomes that of its view and is published at once exactly if the view is M-notarized, left behind and later than the last flush |
| `ChainLaws.RollbackExactly` | consensus/src/consensus_manager/view_chain.rs:1615-1620 | exactly the pending diffs of the inclusive range go |
| `ChainLaws.MarksExactly` | consensus/src/consensus_manager/view_manager.rs:922-935 | marking sets the flag, drops the pending diff of the view and changes nothing else |
| `ChainLaws.CascadesExactly` | consensus/src/consensus_manager/state_machine.rs:576-593 | a cascade marks the current view and drops exactly the pending diffs from its start on |
| `ChainLaws.EntersExactly` | consensus/src/consensus_manager/view_chain.rs:816-822 | the next view is entered empty on its parent, and nothing else changes |
| `ChainLaws.StartsExactly` | consensus/src/consensus_manager/view_chain.rs:116-131 | the chain starts with view 1, empty, on genesis |
| `Limits.LedgerCanDetach` | consensus/src/consensus_manager/view_chain.rs:1025-1033 | a run from the initial state, which leaves view 1 by its nullification, after which a finalization leaves a ledger that does not start at genesis |
| `Limits.SweepCanStop` | consensus/src/consensus_manager/view_chain.rs:1279-1329 | a run from the initial state, which leaves view 1 by its nullification, after which a finalization stops half way |
| `Limits.KeptDiffIsApplied` | consensus/src/consensus_manager/view_chain.rs:1090-1101 | a run from the initial state, with a cascade out of view 2 and a proposal parked in view 3, after which a finalization applies the diff of a view off the chain |
| `Limits.ForeignDiffIsApplied` | consensus/src/consensus_manager/view_chain.rs:525-530 | a run from the initial state, with a cascade, a parked proposal and a recovered block, after which an anchored finalization applies the diff of a block that it does not finalize |
| `ChainRuns.EveryRunIsStructured` | consensus/src/consensus_manager/view_chain.rs:785-911 | in every run the current view is in the map, no view is later, every earlier view in the map is M-notarized or nullified, and the committed view is gone |
| `ChainRuns.NullifiedForGood` | consensus/src/consensus_manager/view_manager.rs:922-935 | in every run a nullified view stays nullified as long as it is in the map, and never comes back |
| `ChainRuns.NullifiedNeverFinalized` | consensus/src/consensus_manager/view_chain.rs:975-982 | in every run, finalizing a view that was nullified at any earlier point is rejected and changes nothing |
| `ChainRuns.SelectedParentIsAccepted` | consensus/src/consensus_manager/view_chain.rs:1561-1595 | in every run, a proposal on the selected parent passes the chain checks of the same replica |
| `ChainRuns.ParentsAreEnterable` | consensus/src/consensus_manager/view_chain.rs:1561-1595 | the selected parent and the notarized hash of the current view belong to well-formed chains of views up to the current one |
| `ChainRuns.FinalizableIsNotRejected` | consensus/src/consensus_manager/view_chain.rs:227-281 | a view found finalizable is never rejected: it is finalized and leaves the map, or deferred with a block to recover, or the sweep meets an unnotarized ancestor |
| `ChainRuns.FinalizedExactlyAncestors` | consensus/src/consensus_manager/view_chain.rs:1039-1066 | on an anchored walk the canonical views are exactly those in the map whose block is an ancestor of the target's |
| `ChainRuns.AnchoredRunsSettle` | consensus/src/consensus_manager/view_chain.rs:944-1134 | over every run whose walks end at the tip, the ledger is one chain from genesis with increasing views, and the views left behind are off it |
| `ChainRuns.MarkNullifiedIsGood` | consensus/src/consensus_manager/view_manager.rs:922-935 | marking a view as nullified keeps the invariants of the chain |
| `StateDiffs.AppliedExactly` | consensus/src/consensus_manager/view_chain.rs:1156-1172 | every diff that one finalization applies is that of a block it writes, in the view of that block, exactly if each flushed view is canonical and its pending diff was computed from its block |
| `StateDiffs.CommittedStateExactly` | consensus/src/consensus_manager/view_chain.rs:1244-1252 | in an anchored run every applied diff is that of a finalized block in every state exactly if every finalization flushes only diffs of the blocks it finalizes |
| `StateDiffs.CommittedStateIsLedger` | consensus/src/consensus_manager/view_chain.rs:1244-1252 | over every anchored run that publishes a diff only with the block it was computed from, every applied diff is that of a finalized block and every pending one that of the block of its view |
| `DeferredFinalization.AnchoredExactly` | consensus/src/consensus_manager/view_chain.rs:1035-1066 | a finalization that starts its sweep is anchored exactly if its block descends from the tip and every ancestor above the tip is in the map with its hash and an M-notarization |
| `DeferredFinalization.DeferredPassIsSafe` | consensus/src/consensus_manager/state_machine.rs:985-1018 | if the blocks with N-F votes lie on one branch with the tip, every round of the loop finalizes anchored exactly if the ancestors of what it finalizes are held (hash and M-notarization, back to the tip), and then the loop keeps the ledger one chain |
| `DeferredFinalization.HeldPass` | consensus/src/consensus_manager/state_machine.rs:985-1018 | they are held in every round if those of all blocks with N-F votes are at the start |
| `DeferredFinalization.PassTerminates` | consensus/src/consensus_manager/state_machine.rs:985-1018 | the loop needs no more rounds than there are views: it would end without its limit |
| `DeferredFinalization.ConsistencyGivesOneBranch` | consensus/src/consensus_manager/state_machine.rs:985-1018 | when the votes counted by the replica were sent in a run of the protocol, consistency gives the one-branch condition for every settled chain |
| `ReplicatedLedgers.SupportedRunIsAnchored` | consensus/src/consensus_manager/view_chain.rs:944-1134 | a run whose votes were sent in a run of the protocol is anchored throughout exactly if each finalization holds its ancestors |
| `ReplicatedLedgers.LedgerIsChainExactly` | consensus/src/consensus_manager/view_chain.rs:1025-1131 | if moreover none stops half way, the ledger is one chain from genesis to the tip in every state exactly if each finalization holds its ancestors |
| `ReplicatedLedgers.LedgersAgree` | README.md:100-107 | at any two moments of any two such replicas that hold their ancestors, one ledger is a prefix of the other |
| `LedgerDisagreements.LedgersCanDisagree` | consensus/src/consensus_manager/view_chain.rs:1025-1033 | for N >= 3F+2 there are messages of a documented run and two runs on their votes, one of them holding its ancestors, with ledgers of which neither is a prefix of the other |
| `ViewChains.ViewChain.constructor` | consensus/src/consensus_manager/view_chain.rs:116-131 | the initial chain satisfies the invariants |
| `ViewChains.ViewChain.FindParentView` | consensus/src/consensus_manager/view_chain.rs:1633-1642 | in whatever order the map is iterated, the view that carries the hash, if any |
| `ViewChains.ViewChain.SelectParent` | consensus/src/consensus_manager/view_chain.rs:1561-1595 | the notarized hash of the greatest earlier view that is M-notarized and not nullified, or the tip if there is none |
| `ViewChains.ViewChain.OldestFinalizableView` | consensus/src/consensus_manager/view_chain.rs:227-281 | the least finalizable view with its hash, and none exactly if there is none |
| `ViewChains.ViewChain.StoreStateDiff` | consensus/src/consensus_manager/view_chain.rs:399-411 | keeps the invariants, the one about the ledger included |
| `ViewChains.ViewChain.AddBlockProposal` | consensus/src/consensus_manager/view_chain.rs:442-551 | the proposal is refused, parked or taken by the chain checks, and the invariants hold afterwards for every block whatever |
| `ViewChains.ViewChain.AddRecoveredBlock` | consensus/src/consensus_manager/view_chain.rs:292-329 | an error exactly for an unknown view or a wrong hash, and `true` exactly if the block was missing and its view is now ready to finalize |
| `ViewChains.ViewChain.RollbackPendingDiffs` | consensus/src/consensus_manager/view_chain.rs:1615-1619 | exactly the pending diffs in the range are gone |
| `ViewChains.ViewChain.Nullify` | consensus/src/consensus_manager/view_manager.rs:922-935 | the view is marked and its pending diff dropped, with all invariants kept |
| `ViewChains.ViewChain.ProgressWithMNotarization` | consensus/src/consensus_manager/view_chain.rs:785-825 | succeeds exactly for the next view number after a notarized or nullified current view; on error nothing changes |
| `ViewChains.ViewChain.ProgressWithNullification` | consensus/src/consensus_manager/view_chain.rs:843-870 | succeeds exactly for the next view number after a view with a nullification |
| `ViewChains.ViewChain.ProgressAfterCascade` | consensus/src/consensus_manager/view_chain.rs:881-911 | succeeds exactly for the next view number after a view nullified locally or by certificate |
| `ViewChains.ViewChain.ApplyDiffsUpTo` | consensus/src/validation/pending_state.rs:169-186 | the loop over the least key applies exactly the pending diffs up to the view, in ascending order, and removes them |
| `ViewChains.ViewChain.TraceCanonical` | consensus/src/consensus_manager/view_chain.rs:1035-1066 | the loop finds the views of the recursive walk over parent hashes, and records the ancestor without a block |
| `ViewChains.ViewChain.SweepUpTo` | consensus/src/consensus_manager/view_chain.rs:1076-1131 | the loop from the least view in the map is the sweep from view 0, errors included |
| `ViewChains.ViewChain.FinalizeWithLNotarization` | consensus/src/consensus_manager/view_chain.rs:944-1134 | the whole call is the specified finalization, with its outcome, for every view; the invariants survive for every view but the current one, which a completed call removes from the map |
| `StateMachines.StateMachine.NullifyView` | consensus/src/consensus_manager/state_machine.rs:896-952 | the view is nullified exactly if it was not before and the call is forced, or no vote was cast, or the evidence is strong |
| `StateMachines.StateMachine.FinalizeView` | consensus/src/consensus_manager/state_machine.rs:860-887 | the current view is never finalized and stays in the map, and a view without its block is an error that changes nothing |
| `StateMachines.StateMachine.FinalizeDeferred` | consensus/src/consensus_manager/state_machine.rs:985-1018 | the loop is at most five rounds of finalizing the oldest finalizable view |
| `StateMachines.StateMachine.NullifyFrom` | consensus/src/consensus_manager/state_machine.rs:613-645 | the range nullification marks the current view without evidence and drops the pending diffs from its start on |
| `StateMachines.StateMachine.Cascade` | consensus/src/consensus_manager/state_machine.rs:542-612 | progression after the forced nullification always succeeds, on the selected parent of the new view; with an M-notarized and nullified earlier view it is a step of the runs |
| `PrimeField.Add` | crypto/src/scalar.rs:101-107 | a reduced scalar congruent to the sum |
| `PrimeField.Sub` | crypto/src/scalar.rs:116-122 | a reduced scalar congruent to the difference |
| `PrimeField.Mul` | crypto/src/scalar.rs:131-137 | a reduced scalar congruent to the product |
| `PrimeField.Inverse` | crypto/src/scalar.rs:146-158 | none exactly for zero, and otherwise a scalar whose product with the argument is congruent to one |
| `PrimeField.Div` | crypto/src/scalar.rs:167-172 | none exactly for a zero divisor, and otherwise a scalar that times the divisor is congruent to the dividend |
| `Polynomials.Evaluate` | crypto/src/polynomial.rs:28-41 | Horner's loop gives the sum of the coefficients times the powers of the point |
| `Lagrange.DenominatorZero` | crypto/src/threshold.rs:87-106 | a denominator vanishes exactly if another point coincides with the given one |
| `Lagrange.LambdasSumToOne` | crypto/src/threshold.rs:87-106 | the coefficients of distinct points sum to one |
| `Lagrange.Interpolates` | crypto/src/threshold.rs:116-132 | the weighted sum of the values of any polynomial with at most as many coefficients as points is its value at zero |
| `Shamir.Split` | crypto/src/threshold.rs:61-74 | every share lies on the polynomial, at the points 1 to N |
| `Shamir.LagrangeCoefficient` | crypto/src/threshold.rs:87-106 | the division panics exactly if another share has the same point, and otherwise gives the Lagrange coefficient at zero |
| `Shamir.Reconstruct` | crypto/src/threshold.rs:116-132 | fails exactly for too few shares or coinciding points, and otherwise gives the constant term of every polynomial through the shares |
| `Shamir.SplitAndReconstruct` | crypto/src/threshold.rs:61-132 | round trip: any `threshold` different shares of a split, in any order, give back the secret |
| `Groups.AggregateVerifies` | consensus/src/crypto/aggregated.rs:54-82 | if every signature verifies under its key, the sum of the signatures verifies under the sum of the keys |
| `Groups.OneSignatureDecides` | consensus/src/crypto/aggregated.rs:54-82 | a sum of signatures all but one of which are valid verifies exactly if that one is valid, too |
| `Groups.Aggregate` | consensus/src/crypto/aggregated.rs:147-153 | the loop gives the group sum |
| `Threshold.Combine` | crypto/src/threshold.rs:309-411 | fails exactly for too few partial signatures or coinciding participants, and otherwise gives the master secret times the message point |
| `Threshold.CombineTwice` | crypto/src/threshold.rs:309-411 | any two sets of `threshold` participants give the same signature, and it verifies under the master key |
| `Certificates.CreateNullificationData` | consensus/src/consensus_manager/utils.rs:120-145 | whatever the iteration order, the array names the senders of different messages of the set and the signature is the sum of theirs; an error exactly for too few |
| `Certificates.BuildNullification` | consensus/src/state/nullify.rs:101-114 | from enough validly signed nullify messages for one view and leader, the certificate names distinct senders from the set and passes verification |
| `Certificates.CertificateDecides` | consensus/src/state/nullify.rs:101-114 | a certificate over signatures all but one of which are valid verifies exactly if that one is valid, too |
| `PoolInvariants.RemoveInv` | consensus/src/mempool/pool.rs:551-613 | removal keeps the indexes agreeing, the counts, and the fee index true and complete |
| `PoolInvariants.EvictInv` | consensus/src/mempool/pool.rs:624-635 | so does eviction, which leaves the queue and the expected nonces alone |
| `PoolInvariants.PromoteInv` | consensus/src/mempool/pool.rs:407-437 | promotion restores that nothing is queued for the expected nonce, and keeps the fee index complete if the sender had pending transactions |
| `PoolInvariants.TrimInv` | consensus/src/mempool/pool.rs:440-455 | trimming restores the limit of 64 and keeps everything else |
| `PoolInvariants.AddOldInv` | consensus/src/mempool/pool.rs:304-361 | replacing a pending transaction keeps every invariant, its entry in the fee index included |
| `PoolInvariants.TryAddInv` | consensus/src/mempool/pool.rs:210-297 | adding keeps every invariant through replacement, eviction, promotion and trimming, and a complete fee index complete |
| `PoolInvariants.UpdateNonceInv` | consensus/src/mempool/pool.rs:490-548 | a nonce update keeps every invariant |
| `PoolInvariants.UpdateKeepsHeadsExactly` | consensus/src/mempool/pool.rs:490-548 | a nonce update keeps the fee index complete exactly if it changes nothing or nothing is queued for the new nonce |
| `PoolRuns.EveryRunKeepsInv` | consensus/src/mempool/pool.rs:115-142 | after any operations: hash table and indexes agree, pending nonces lie below the expected one, no queued nonce equals it, at most 64 are queued per sender, every transaction is counted, and every fee index entry is that of its sender's lowest pending nonce |
| `PoolRuns.DisjointUnion` | consensus/src/mempool/pool.rs:115-142 | after any operations the hash table is the disjoint union of the pending and the queued index |
| `PoolRuns.SizeIsAddedLessRemoved` | consensus/src/mempool/pool.rs:684-700 | after any operations without `clear` the size is the number added less the number removed |
| `PoolRuns.HeadsExact` | consensus/src/mempool/pool.rs:122-125 | after any operations without nonce updates the fee index has exactly one entry per sender with pending transactions |
| `PoolOutcomes.PromotesLongestRun` | consensus/src/mempool/pool.rs:407-437 | promotion moves exactly the longest run of queued nonces from the expected one, and the expected nonce to its end |
| `PoolOutcomes.TryAddAnswers` | consensus/src/mempool/pool.rs:101-110 | `AddedPending` means pending, `Rejected` means absent, and `AddedQueued` means queued exactly if fewer than 64 others are queued or one of them has a higher nonce |
| `PoolOutcomes.ReplacementPays` | consensus/src/mempool/pool.rs:245-256 | no transaction takes an occupied place for less than 110 percent of the fee there, rounded down |
| `PoolOutcomes.ExceedsCapacityExactly` | consensus/src/mempool/pool.rs:259-267 | an addition makes the pool exceed its capacity exactly if the pool is full, the fee index empty, the hash new, the nonce not below the expected one and free, and either equal to it or with fewer than 64 queued |
| `PoolOutcomes.RejectionExactly` | consensus/src/mempool/pool.rs:243-267 | a rejection changes the transactions exactly if a queued one was to be replaced, the pool is over capacity and the last head pays as much; then exactly that one is lost |
| `PoolOutcomes.HeadCanBeMissing` | consensus/src/mempool/pool.rs:542-548 | two operations after which a sender with pending transactions has no entry in the fee index |
| `PoolLaws.AnswersExactly` | consensus/src/mempool/pool.rs:210-297 | the answer of an addition from the pool before it: rejected exactly if the transaction is known, its nonce is past and it does not pay 110 percent for the place of a pending one, it does not pay that for the place of a queued one, or the pool is full and every entry of the fee index pays as much; else pending up to the expected nonce and queued above |
| `PoolLaws.LosesExactly` | consensus/src/mempool/pool.rs:210-297 | an addition loses exactly the transaction whose place is taken, the cheapest entry of the fee index if the pool is full, and the highest queued nonce of a sender with 64, and changes no other |
| `PoolLaws.ExpectsExactly` | consensus/src/mempool/pool.rs:218-231 | the sender's expected nonce afterwards: past the nonces queued without a gap if the expected one was added, else as before or the given base |
| `PoolLaws.RemovesExactly` | consensus/src/mempool/pool.rs:551-616 | removal takes the transaction, and no other, out of the hash table and its index, and counts it |
| `PoolLaws.RemovesListed` | consensus/src/mempool/pool.rs:480-487 | removing a list removes exactly its members, whatever their order and repetitions |
| `PoolLaws.EvictsExactly` | consensus/src/mempool/pool.rs:619-635 | eviction removes the first pending transaction of a sender with an entry, such that no entry pays less, or as much and arrived later |
| `PoolLaws.EvictsOnlyCheapest` | consensus/src/mempool/pool.rs:619-635 | it loses exactly that one |
| `PoolLaws.TrimsExactly` | consensus/src/mempool/pool.rs:440-455 | the queue limit leaves the 64 lowest nonces of the sender, and drops and counts the others |
| `PoolLaws.UpdatesExactly` | consensus/src/mempool/pool.rs:490-548 | a nonce update does nothing unless the nonce exceeds the expected one; then the sender's pending transactions go, and those queued from the nonce on without a gap become pending |
| `PoolLaws.ClearsExactly` | consensus/src/mempool/pool.rs:703-709 | the indexes are empty and the counters as before |
| `TransactionPools.TransactionPool.constructor` | consensus/src/mempool/pool.rs:147-158 | the empty pool satisfies the invariants |
| `TransactionPools.LastHead` | consensus/src/mempool/pool.rs:85-96 | no entry pays less; on equal fees none arrived later, and on equal arrival none has a greater address |
| `TransactionPools.TransactionPool.TryAdd` | consensus/src/mempool/pool.rs:210-297 | result and new state are those of the specification, and the invariants hold |
| `TransactionPools.TransactionPool.TryReplacePending` | consensus/src/mempool/pool.rs:304-361 | replaces exactly when the specification accepts, up to the insertion left to the caller, and otherwise changes nothing |
| `TransactionPools.TransactionPool.PromoteQueued` | consensus/src/mempool/pool.rs:407-437 | the loop is the specified promotion |
| `TransactionPools.TransactionPool.EnforceQueuedLimit` | consensus/src/mempool/pool.rs:440-455 | the loop is the specified trimming |
| `TransactionPools.TransactionPool.Remove` | consensus/src/mempool/pool.rs:551-613 | the specified removal, with the transaction if there was one |
| `TransactionPools.TransactionPool.RemoveFinalized` | consensus/src/mempool/pool.rs:480-484 | removes the listed transactions and keeps the invariants |
| `TransactionPools.TransactionPool.EvictLowestPending` | consensus/src/mempool/pool.rs:624-635 | removes the first pending transaction of the sender that is last in the fee index |
| `TransactionPools.Forget` | consensus/src/mempool/pool.rs:519-524 | exactly the sender's transactions below the nonce are taken out, and counted |
| `TransactionPools.TransactionPool.UpdateSenderNonce` | consensus/src/mempool/pool.rs:490-548 | the specified nonce update, with the invariants |
| `TransactionPools.TransactionPool.Clear` | consensus/src/mempool/pool.rs:703-709 | an empty pool with the counters kept |
| `FeeMerge.MergeUnique` | consensus/src/mempool/pool.rs:456-475 | there is only one sequence that always takes the best of the senders' next transactions |
| `FeeMerge.MergeGivesEveryLane` | consensus/src/mempool/pool.rs:711-717 | that sequence gives every sender's run in full and in order, and nothing else |
| `FeeMerge.RunIsLongest` | consensus/src/mempool/pool.rs:760-771 | the run of a sender has consecutive nonces and ends at the first nonce that is not pending |
| `FeeMerge.MergeGivesEveryRun` | consensus/src/mempool/pool.rs:456-475 | with a complete fee index every sender with pending transactions is served its longest run from its lowest nonce |
| `FeeMerge.MergeHasNoDuplicates` | consensus/src/mempool/pool.rs:456-475 | no transaction is given twice |
| `FeeMerge.PoolMergePaysBest` | consensus/src/mempool/pool.rs:85-96 | whatever is given pays at least as much as the next transaction of every other sender then; on equal fees it arrived no later, and on equal arrival its address is smaller |
| `PendingIterators.PendingIter.constructor` | consensus/src/mempool/pool.rs:727-742 | the heap starts with the heads of exactly the runs still to be given |
| `PendingIterators.PendingIter.Next` | consensus/src/mempool/pool.rs:747-778 | gives the next transaction of the sender whose next one pays most (then arrived first, then has the smallest address) and advances that sender only; none exactly if every run is used up |
| `PendingIterators.IterPending` | consensus/src/mempool/pool.rs:473-475 | iterating to the end terminates and gives the greedy merge of the senders' runs, in which each transaction pays at least as much as the next one of every other sender |

## Left out

- Networking, gRPC, SDK, node orchestration, configuration, identity files, ring buffers, threads, ticks, retries and
  logging: a timeout or message is a step that may happen at any time.
- `ViewContext` methods that store nullify messages and certificates, and the `route_*` functions: in runs of the chain
  they are growth steps (`CtxStep`), not modelled method by method.
- `process_pending_child_proposals`, `persist_all_views`, shutdown and start from stored state: the chain starts at view 1.
- The `block.rs`, `sync.rs` and RPC code, message replay, mempool notifications and block recovery cooldowns.
- BLS12-381, hash-to-curve, blake3, Ed25519 and serialization: replaced by field, group and pairing laws and a
  collision-free hash. The deserialization errors of `ThresholdBLS::aggregate` are not modelled.
- Storage errors: writing always succeeds, except where a finalization stops for a missing certificate.
- 64-bit overflow of fees, nonces and counters.
- Protocol.Consistency: is about runs that follow the documented rules; `Thresholds`, `VoteTallies` and
  `ForcedNullifications` say what becomes of it under the rules of the source.
- Protocol.InvPreserved: Byzantine replicas send only under their own names, an assumption on the signatures.
- ChainRuns.AnchoredRunsSettle: assumes anchored walks; `LedgerStaysOneChain` shows that this is exactly what is needed
  and `AnchoredExactly` what it asks of the replica.
- ReplicatedLedgers.LedgersAgree: assumes that both replicas hold the ancestors of what they finalize;
  `LedgersCanDisagree` shows that it fails without.
- VoteTallies.ViewVotes.AddVote: takes votes of known peers, of the right view and with a valid signature.
- VoteTallies.CounterIs: assumes that the hash of a view is not replaced by another one; `ReplacedHash` reduces the other
  sequences to it.
- Certificates.BuildNullification: the hash of a message to a point is an arbitrary function, and nothing is said about
  unforgeability. `create_notarization_data` is the same loop over votes and is not repeated.
- PoolRuns.SizeIsAddedLessRemoved: `clear` does not count what it discards, so runs with it are covered by a separate
  count in `EveryRunKeepsInv`.
- Pool getters and statistics: they only read the fields.
