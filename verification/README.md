# Paraloom core, verified in Dafny

Paraloom is a privacy network on Solana: shielded settlements are checked by a set of staked
validators, the proving key comes out of a public multi-party ceremony, and validators also run
compute jobs. This project models the four parts of its core where correctness depends on whole
histories rather than on single calls, and proves what they promise.

* **Settlement consensus** (`Encoding`, `VoteTally`, `Quorum`, `Leader`, `LeaderAgreement`,
  `LeaderRuns`, `TransactModel`, `TransactCoordinator`, `TransactRuns`, `TransactHistory`, `Equivocation`,
  `FlapIndependence`, `TransactInterleaved`, `InterleavedEquivocation`, `InterleavedDue`). A coordinator
  collects signed votes, one per staked wallet, on requests keyed by a content hash, bans wallets that
  flip, and sends each approval once, when enough wallets and more than two thirds of the stake stand
  behind it. The coordinator is an object whose every operation is proved to take one step of a state
  machine; the theorems are about all runs of that machine, and then about all interleavings of votes
  whose steps are taken one at a time. `TransactHistory` says what every part of the state and the
  approvals are in terms of the events of the run alone. The theorems hold for every function that
  gives requests their ids; the coordinator is built with the canonical id, and `Encoding` shows what
  that id binds.
* **Phase-2 ceremony** (`ScalarField`, `Polynomial`, `Bgm17`, `Transcript`, `CeremonyVerifier`,
  `BatchSoundness`, `Ceremony`, `Policy`). Contributions to a Groth16 key after Bowe, Gabizon and
  Miers (eprint 2017/1050), the hash-chained transcript, the three final checks and the promotion
  policy. Group elements are represented by their exponents in a field of arbitrary prime order, so
  scalar multiplication and the pairing are multiplication; hashes, challenges and point encodings
  are arbitrary functions.
* **Job distribution, execution and agreement** (`Distribution`, `SweepProofs`, `Handovers`, `LoadLimits`,
  `LandingJobs`, `LockOrder`, `JobCoordinator`, `Executor`, `TaskLimit`, `JobExecutor`, `Agreement`).
  A scheduler that hands assignments over after timeouts and failures, its load limits and its locks,
  an executor with a loop and spawned tasks, and the two-of-three comparison of results.
* **Commitment tree** (`Merkle`, `Membership`). The on-chain incremental tree with its root history,
  and the client's derivation of an authentication path from what the tree stores, for any
  two-to-one hash, any depth, any index and any claimed leaf.

Iteration over a hash map visits keys in an arbitrary order; clocks are parameters; 64-bit
saturation is written out, and 128-bit overflow, which the build checks, is an abort. Where a property
would need an injective hash, it is stated as "equal, or here is a collision", because no function
from messages to digests is injective.

## Where the code does not do what is said of it

Each of these is a lemma with the failing input and the exact condition under which the claim holds.

* `src/consensus/transact.rs:218-219` says an approval is emitted the moment a Valid quorum is first
  reached. The code looks only when a vote arrives: an approval can stay due and unsent, but only
  since a snapshot, a cleared mark, a vote without a receiver or a flip in another round
  (`DueOnlyAfterLateCause`); `VoteBeforeSnapshotLeavesDue` is such a run.
* A flip bans a wallet for good, but a vote in flight keeps the eligible wallets it has read: an
  approval can be sent whose only Valid vote is that of a wallet banned since
  (`BannedWalletCarriesApproval`). It can count a banned wallet only if the ban fell after it looked
  (`ApprovalsCountOnlyUnbanned`).
* `src/consensus/leader.rs:164-165` says that all validators select the same leader from the same
  seed. They draw the same random value (`TotalIgnoresOrder`), but the choice follows the iteration
  order of a hash map: it is the same for all nodes exactly when one validator's weight exceeds the
  value drawn and the others' weights do not (`NodesAgreeExactly`), and for all values exactly when
  at most one validator carries weight (`SameLeaderExactly`).
* The two-thirds threshold is computed with a saturating product. It is the least integer above two
  thirds of the eligible stake exactly up to 2^63 (`ThresholdExact`); up to there two quorums share
  more than a third of the stake (`QuorumsIntersect`), and for every larger stake they need not
  (`QuorumsCanMiss`).
* The saturating stake sum hides an over-count only for an eligible stake of exactly 2^64 - 1
  (`SaturationExact`, `SaturationHidesOneOverCount`).
* `src/ceremony/bgm17.rs:44-45` says both proof equations hold if and only if one scalar explains
  both deltas. A step by different scalars can still be answered, for exactly one challenge value
  (`MismatchedStepFitsOneChallenge`).
* With no contribution and a zero initial delta, the three ceremony checks accept every pair of
  query vectors of the right length (`EmptyTranscriptZeroDelta`); the promotion policy excludes this
  (`PromotedKeyIsContributed`).
* The pending pass of a reassignment looks at pending load only. It keeps all validators within their
  limits exactly when none of them has fetched a job (`PendingPassSafeExactly`); otherwise
  `OverloadingTurn` builds a state from which it does not, and `OverloadIsReachable` a history.
* The coordinator's operations, in any number and any interleaving, never block each other for good
  exactly when the sweeps have nothing to hand over (`NeverBlocksExactly`). Otherwise a sweep and a
  fetch can (`SweepAndFetchDeadlock`), or a sweep, an assignment and an announcement
  (`SweepAssignAnnounceDeadlock`).
* `src/relayer/transact_submit.rs:80-84` speaks of any leaf index. The path can be derived for the last
  leaf; for an earlier one it is refused unless the hash collides or a non-empty subtree looks empty
  (`ReadMembership`, `ReadFirstOfTwo`).
* The executor limits the entries of its active map, not its tasks: `submit_job` takes any id, and tasks
  under one id share an entry. Five jobs under one id run at once (`FiveUnderOneId`); at most four tasks
  execute, whatever the interleaving, exactly if there are at most four submissions or no id is repeated
  before the last (`AtMostFourExactly`). Results of one id replace each other; every acceptance is
  accounted for when these are counted (`EveryAcceptanceAccounted`).
* An assignment can land between the load count and the write of an active job's turn and make the
  write exceed a limit, exactly when new jobs can be assigned to the validator it chose
  (`SafeAgainstLandingExactly`), so for whole passes exactly when somebody announces spare capacity
  (`ActivePassSafeExactly`).
* `src/compute/verification.rs:232` says the results of the majority are all the same. They share their
  output, up to absent and empty (`SameKeyExactly`); the first submitted one is returned
  (`AgreementExactly`), and a failed job agrees with a completed one whose output is empty
  (`FailureAgreesWithEmptyOutput`).
* `assign_job` does not look at the active jobs; it keeps a job in one map exactly when the id is
  not active (`AssignKeepsDisjoint`).
* An agreed job result is final exactly when at most three different validators are assigned
  (`FinalExactlyUpToThree`); the request accepts more.

## Model

| member | source | states |
|---|---|---|
| `TransactHistory.ApprovalsByHistory` | src/consensus/transact.rs:580-1010 | in every run the approvals, in order, and the marks are exactly those the events call for: a vote sends one exactly if it is signed, of a wallet in the last snapshot (or there was none) and on an open, unmarked round, somebody is listening, and the unbanned wallets of the last snapshot whose first vote in the round is Valid reach the minimum and, without the authority, hold more than two thirds of the total without the authority |
| `TransactHistory.SnapshotIsLast` | src/consensus/transact.rs:698-724 | in every run stakes, wallets and registry total are exactly those of the last non-empty snapshot, or empty and zero |
| `TransactHistory.VotersExactly` | src/consensus/transact.rs:580-687 | in every run the voter list holds, each once, exactly the peers that registered with a wallet of the snapshot in force then (or before any) and have not left since |
| `TransactHistory.RoundsExactly` | src/consensus/transact.rs:789-1010 | in every run a round is open exactly since a start under the request's own id with a voter and at least the minimum of them, until it is cleaned up or swept more than thirty seconds after its start |
| `TransactHistory.AdmittedExactly` | src/consensus/transact.rs:838-881 | in every run a vote is admitted exactly if its round is open, it is signed and names a wallet, and the wallet is in the last non-empty snapshot or there was none |
| `TransactHistory.BallotsExactly` | src/consensus/vote_tally.rs:112-146 | in every run the record of a wallet in an open round is vote, node id and signature of its first admitted vote in it, and there is none otherwise |
| `TransactHistory.BansExactly` | src/consensus/transact.rs:893-915 | in every run a wallet is banned exactly if it was from the start or has cast an admitted vote of the other kind than its first one in the round |
| `TransactHistory.DueExactly` | src/consensus/transact.rs:917-938 | an approval is due exactly if its round is unmarked and enough staked, unbanned wallets stand at Valid and clear two thirds, said without the functions that count them |
| `TransactRuns.EveryApprovalIsSound` | src/consensus/transact.rs:838-941 | in every run, each approval ever sent was sent by a vote, for a pending request under its own canonical id, with at least the minimum of eligible Valid wallets and, with the authority's wallet configured, with the staked, unbanned wallets at Valid other than the authority holding more than two thirds of the total without the authority and no more than all of it (beyond 2^63, more than a third of 2^64 - 1); with that wallet or a minimum of at least one, never before a non-empty snapshot |
| `TransactRuns.DueOnlyAfterLateCause` | src/consensus/transact.rs:838-941 | in every run an approval that is due and unsent has been due in every state since one event, and that event was a non-empty snapshot, the clearing of its mark, an admitted vote on it without a receiver, or an admitted flip in another round |
| `TransactRuns.VoteBeforeSnapshotLeavesDue` | src/consensus/transact.rs:698-724 | a run, on a node with or without an authority wallet, in which a Valid vote before the snapshot leaves the approval due and unsent |
| `InterleavedDue.InterleavedDueOnlyAfterLateMove` | src/consensus/transact.rs:838-941 | under every interleaving, an approval that is due and unsent while no vote is in flight has been due since a state after which a snapshot was written, its mark cleared, its sending found no receiver, or a flip in another round banned a wallet |
| `InterleavedDue.StaysOnItsWay` | src/consensus/transact.rs:893-938 | as long as the approval is due and none of these happens, a vote on it that is in flight stays able to send it |
| `TransactRuns.BecomesDue` | src/consensus/transact.rs:838-1010 | a step that makes an approval due without sending it is one of the four causes |
| `TransactRuns.SendsExactlyWhenDue` | src/consensus/transact.rs:917-938 | a vote sends its request's approval exactly when it is admitted, the id is unmarked, the minimum of eligible wallets stands at Valid and the true counted stake opens the gate; the separate vote-count condition is implied |
| `TransactRuns.SentExactlyOncePerMark` | src/consensus/transact.rs:920-938 | in every run the approvals sent for an id number exactly the times its mark was taken off plus one if it is marked now, hence at most one plus the clears and sweeps |
| `TransactRuns.DuplicateStartIsSameSettlement` | src/consensus/transact.rs:817-829 | in every reachable state a start for an id in flight changes nothing, and the round in flight is for the same settlement unless the hash collides |
| `TransactRuns.InvAlways` | src/consensus/transact.rs:698-833 | in every reachable state rounds are keyed by their own canonical id, carry the configured minimum, and wallets, stakes and registry total belong together |
| `TransactRuns.InvStep` | src/consensus/transact.rs:580-1010 | every operation keeps that invariant |
| `TransactRuns.ApprovalStep` | src/consensus/transact.rs:917-938 | a step sends nothing, or is a vote that sends exactly one approval, which is sound |
| `TransactRuns.MarkStep` | src/consensus/transact.rs:404-406 | a step sends an approval for an id exactly when it marks the id, and only clearing or sweeping unmarks it |
| `TransactRuns.GateMeansStake` | src/consensus/transact.rs:458-500 | the gate is open exactly if the staked, unbanned wallets at Valid other than the authority hold more than two thirds and no more than there is |
| `TransactRuns.WalletsComeFromSnapshot` | src/consensus/transact.rs:711-715 | a known wallet set implies that a non-empty snapshot was applied earlier in the run |
| `TransactInterleaved.InterleavedSendsOncePerMark` | src/consensus/transact.rs:893-938 | exactly-once sending under every interleaving of the steps of votes in flight, snapshot writes, starts, clears, removals and sweeps |
| `TransactInterleaved.EveryInterleavedApprovalIsBacked` | src/consensus/transact.rs:893-938 | under every interleaving each approval was backed by enough Valid votes of wallets eligible when they were read and by a stake check passed on states the run went through in order, and not before a non-empty snapshot began to land |
| `InterleavedEquivocation.ApprovalsCountOnlyUnbanned` | src/consensus/transact.rs:893-938 | under every interleaving the wallets an approval counts were unbanned in the state its vote read, those counted for stake also in the state of the check, and one is banned at sending exactly when its ban fell since |
| `InterleavedEquivocation.BannedWalletCarriesApproval` | src/consensus/transact.rs:921-931 | a run, on a node with or without an authority wallet, that sends an approval whose only Valid vote and whose whole stake is that of a wallet banned after the stake check |
| `InterleavedEquivocation.InterleavedRecordStands` | src/consensus/vote_tally.rs:112-146 | under every interleaving a wallet's stored vote, node id and signature never change while the round lasts |
| `InterleavedEquivocation.InterleavedOnlyFlipsBan` | src/consensus/transact.rs:893-915 | under every interleaving a wallet that gets banned had two votes of opposite kind tallied in one round |
| `InterleavedEquivocation.InterleavedFlipBans` | src/consensus/transact.rs:893-915 | under every interleaving, once two votes of a wallet of opposite kind have been tallied in one round, in either order, the wallet is banned or a task is about to ban it, ever after |
| `InterleavedEquivocation.InterleavedBannedExactly` | src/consensus/transact.rs:893-915 | under every interleaving exactly the wallets banned from the start and those that have flipped are banned or about to be |
| `InterleavedEquivocation.InterleavedBansAreForGood` | src/consensus/transact.rs:893-915 | under every interleaving the ban set only grows |
| `InterleavedEquivocation.InterleavedRecordsComeFromVotes` | src/consensus/vote_tally.rs:112-146 | a standing record is vote, node id and signature of a vote of that wallet tallied in the same round |
| `InterleavedEquivocation.StakeStandsAtSending` | src/consensus/transact.rs:436-518 | wallets that stand at Valid when the approval is sent, other than the authority and unbanned and staked when the stake was checked, hold more than two thirds of what was checked |
| `TransactInterleaved.WritesReplace` | src/consensus/transact.rs:698-724 | under every interleaving wallets, stakes and total are each exactly what the last write of theirs put there |
| `TransactInterleaved.AlwaysSafe` | src/consensus/transact.rs:838-941 | lock discipline and what each task relies on hold in every state of every interleaving |
| `TransactInterleaved.SafeStep` | src/consensus/transact.rs:838-1010 | every move of every task and of the environment keeps them |
| `TransactInterleaved.SendStep` | src/consensus/transact.rs:920-938 | only the holder of the lock on the emitted set sends, once, and marks the id in the same move |
| `TransactInterleaved.TasksRemember` | src/consensus/transact.rs:917-928 | what a task holds on to was read from states of the run, in order |
| `TransactInterleaved.AloneIsAtomic` | src/consensus/transact.rs:838-941 | a vote whose steps run without interference has exactly the effect of the one-step model |
| `Equivocation.RecordStands` | src/consensus/vote_tally.rs:112-146 | while a round lasts, a wallet's stored vote, node id and signature never change |
| `Equivocation.FlipBansForGood` | src/consensus/transact.rs:893-915 | when operations are one step each, a wallet with two admitted votes of opposite kind in one round, in either order, is banned in every later state and is in no eligible set, no counted stake and no co-signer list |
| `Equivocation.OnlyFlipsBan` | src/consensus/transact.rs:893-915 | a wallet that a run bans cast two admitted votes of opposite kind in one round of one id |
| `Equivocation.BannedExactly` | src/consensus/transact.rs:893-915 | in every run the banned wallets are exactly those banned from the start and those with two admitted votes of opposite kind in one round |
| `Equivocation.RecordsComeFromVotes` | src/consensus/vote_tally.rs:112-146 | every standing record is vote, node id and signature of an admitted vote of that wallet within the same round |
| `Equivocation.BansAreForGood` | src/consensus/transact.rs:893-915 | the ban set only grows |
| `FlapIndependence.ApprovalsIgnoreFlaps` | src/consensus/transact.rs:580-687 | runs that differ only in register and unregister events, with each start succeeding in both or neither, end with the same rounds, bans and stakes and the same approvals in order |
| `FlapIndependence.CoreFollowsObservation` | src/consensus/transact.rs:838-941 | the counting state is a function of the events other than registration and of which starts succeeded |
| `FlapIndependence.EntrySurvivesFlaps` | src/consensus/leader.rs:117-155 | through any run a known validator that keeps its wallet keeps its entry, its reputation and the stake of the last snapshot |
| `FlapIndependence.ReconnectRestores` | src/consensus/transact.rs:580-687 | disconnecting and reconnecting with a wallet still in the snapshot gives back the very entry, active, and does not touch counting |
| `FlapIndependence.WithoutRemoves` | src/consensus/transact.rs:669-687 | unregistering removes the node from the voter list and nobody else |
| `TransactCoordinator.TransactVerificationCoordinator.constructor` | src/consensus/transact.rs:329-351 | a fresh coordinator is the machine's initial state with the loaded ban set |
| `TransactCoordinator.TransactVerificationCoordinator.RegisterValidatorWithWallet` | src/consensus/transact.rs:580-653 | takes the machine's register step: gated by the snapshot's wallets, idempotent in the voter list, preserving a known entry's stake |
| `TransactCoordinator.TransactVerificationCoordinator.UnregisterValidator` | src/consensus/transact.rs:669-687 | takes the unregister step: the voter list loses the node, the leader entry is only deactivated |
| `TransactCoordinator.TransactVerificationCoordinator.SyncOnchainStakes` | src/consensus/transact.rs:698-724 | takes the sync step: a non-empty snapshot replaces wallets, stakes and total (`SnapshotIsLast`), an empty one leaves them, and either rewrites the selector's stakes (`EntriesExactly`) |
| `TransactCoordinator.TransactVerificationCoordinator.StartVerification` | src/consensus/transact.rs:789-833 | takes the start step and succeeds exactly for a canonical id with enough registered validators; a round in flight is kept |
| `TransactCoordinator.TransactVerificationCoordinator.SubmitResult` | src/consensus/transact.rs:838-941 | takes the vote step and fails exactly for an unknown request |
| `TransactCoordinator.TransactVerificationCoordinator.TallyVote` | src/consensus/transact.rs:893-915 | the vote is installed if it is the wallet's first, and a vote of the other kind bans the wallet (`BallotsExactly`, `BansExactly`) |
| `TransactCoordinator.TransactVerificationCoordinator.EmitIfApproved` | src/consensus/transact.rs:917-938 | sends and marks exactly under the four conditions with a live receiver |
| `TransactCoordinator.TransactVerificationCoordinator.CheckConsensus` | src/consensus/transact.rs:944-971 | errs exactly for unknown or overdue requests, and reports Valid and Invalid exactly by the eligible votes and the stake gate |
| `TransactCoordinator.TransactVerificationCoordinator.ValidVotersOf` | src/consensus/transact.rs:737-746 | lists one node id per eligible Valid wallet, and nothing for an unknown request |
| `TransactCoordinator.TransactVerificationCoordinator.ClearEmittedMark` | src/consensus/transact.rs:404-406 | takes the clear step |
| `TransactCoordinator.TransactVerificationCoordinator.CleanupRound` | src/consensus/transact.rs:985-989 | removes the round and keeps the mark |
| `TransactCoordinator.TransactVerificationCoordinator.CleanupTimeouts` | src/consensus/transact.rs:994-1010 | removes exactly the overdue rounds and their marks and returns their number |
| `Tally.VoteTally.constructor` | src/consensus/vote_tally.rs:85-100 | a new tally has no votes and a deadline thirty seconds on |
| `Tally.VoteTally.SubmitVote` | src/consensus/vote_tally.rs:112-146 | the first vote stands, and evidence is returned exactly for a later vote of the other kind, Valid or Invalid first, with both votes and both signatures |
| `Tally.VoteTally.ConsensusResult` | src/consensus/vote_tally.rs:174-212 | fails exactly below the minimum of eligible votes, is Valid exactly with the minimum of eligible Valid wallets, and reports exact counts otherwise |
| `Tally.VoteTally.ValidVoters` | src/consensus/vote_tally.rs:233-242 | one node id per eligible Valid wallet, in visiting order |
| `Tally.CountVotes` | src/consensus/vote_tally.rs:180-188 | the loop's counters are the sizes of the eligible and the excluded voter sets, for every visiting order |
| `Tally.CountValid` | src/consensus/vote_tally.rs:199-200 | the number of eligible wallets that stand at Valid |
| `Quorum.StakeQuorumMet` | src/consensus/transact.rs:436-518 | the gate opens exactly by the true stake of the counted wallets, for every visiting order; what that means is `StakeQuorumExactly` |
| `Quorum.CountStake` | src/consensus/transact.rs:475-486 | the loop computes the saturated stake of the non-local, unbanned, staked Valid wallets |
| `Quorum.StakeQuorumExactly` | src/consensus/transact.rs:436-518 | the gate is open exactly if the wallets that stand at Valid, are staked, not banned and not the authority hold more than two thirds of the registry total less the authority's stake, and no more than it |
| `Quorum.UncountedVoteIsIgnored` | src/consensus/transact.rs:475-486 | an Invalid vote, and a vote of a banned or unstaked wallet or of the authority, can be left out without changing the decision |
| `Quorum.AuthorityIsLeftOut` | src/consensus/transact.rs:458-471 | the decision is the one on a registry without the authority |
| `Quorum.GateExactly` | src/consensus/transact.rs:471-500 | the saturating gate is the plain comparison with two thirds, capped at a third of 2^64 - 1, for every eligible and counted stake |
| `Quorum.ThresholdExact` | src/consensus/transact.rs:471 | the threshold is the least integer above two thirds exactly for an eligible stake up to 2^63 |
| `Quorum.SaturationExact` | src/consensus/transact.rs:483-500 | deciding on the saturated sum equals deciding on the true sum except for an over-count at eligible stake 2^64 - 1 |
| `Quorum.SaturationHidesOneOverCount` | src/consensus/transact.rs:483-500 | a concrete over-count that passes the gate |
| `Quorum.QuorumsIntersect` | src/consensus/transact.rs:471-500 | two wallet sets that open the gate share wallets holding more than a third of the eligible stake |
| `Quorum.QuorumsCanMiss` | src/consensus/transact.rs:471-500 | for every eligible stake beyond 2^63 there are two quorums whose common wallets hold a third or less |
| `Quorum.MoreVotesMoreStake` | src/consensus/transact.rs:475-486 | added votes never lower the counted stake |
| `Quorum.VerifyValidatorQuorum` | programs/paraloom/src/quorum.rs:35-106 | the on-chain check accepts exactly when the distinct active signers other than the authority open the same gate |
| `Quorum.PairAddsExactly` | programs/paraloom/src/quorum.rs:50-92 | a further pair adds its wallet exactly if the wallet signed, is not the authority and comes with its own canonical, active account |
| `Quorum.ApprovalClearsOnchainGate` | programs/paraloom/src/quorum.rs:35-106 | a settlement that passes the node's gate, under an accurate snapshot and signed by all counted wallets, passes the program's exactly when its signers' saturated stake is within the eligible stake |
| `Quorum.AssembledQuorumClears` | src/consensus/transact.rs:414-415 | the counted wallets themselves, as signers, always pass the program's gate |
| `Encoding.TransactVoteSigningBytes` | src/consensus/transact.rs:182-216 | the buffer is the length-prefixed encoding of all fields |
| `Encoding.SigningBytesInjective` | src/consensus/transact.rs:182-216 | equal signing bytes exactly for equal program, cluster, request id, voter, validity and wallet |
| `Encoding.SignedReadsBack` | src/consensus/transact.rs:182-216 | a reader of the format gets back program, cluster, request, validator, validity and wallet, each in its place |
| `Encoding.PreimageReadsBack` | src/consensus/transact.rs:111-132 | a reader of the format gets back root, recipient, signed amount, nullifiers, outputs, proof and optional mint, each in its place |
| `Encoding.PreimageInjective` | src/consensus/transact.rs:111-132 | equal hash preimages exactly for the same settlement: root, recipient, amount, nullifiers, outputs, proof and optional mint |
| `Encoding.CanonicalIdBindsSettlement` | src/consensus/transact.rs:111-132 | equal canonical ids exactly for the same settlement or a digest collision |
| `Encoding.HexInjective` | src/consensus/transact.rs:111-132 | the hexadecimal rendering of a digest determines it |
| `Encoding.HexReadsBack` | src/consensus/transact.rs:111-132 | the two digits of a byte, high one first, read as a hexadecimal number give the byte |
| `Encoding.CanonicalIdReadsBack` | src/consensus/transact.rs:111-132 | the id is "transact-" and the digest of the hashed bytes in 64 digits |
| `Leader.WeightExactly` | src/consensus/leader.rs:54-70 | the weight is stake times reputation in thousandths, rounded down, and zero for an inactive validator |
| `Leader.DrawIsDigest` | src/consensus/leader.rs:215-234 | a digest whose first sixteen bytes hold a number, least significant first, draws that number modulo the total |
| `LeaderRuns.EntriesExactly` | src/consensus/transact.rs:580-724 | in every run a peer's entry holds the wallet it last registered under, that wallet's stake in the last snapshot since, reputation 1000, and is active exactly if the peer is a voter |
| `LeaderRuns.ChancesAreStakes` | src/consensus/leader.rs:172-213 | in every run and for every visiting order each voter can be selected, and the random values that select it number exactly its wallet's stake in the last snapshot |
| `LeaderRuns.OnlyVotersLead` | src/consensus/leader.rs:173 | in every run nobody but a voter can be selected |
| `LeaderRuns.NoLeaderBeforeSnapshot` | src/consensus/leader.rs:182-184 | before the first snapshot the total weight is zero, whoever has registered |
| `Leader.ExactlyWeighted` | src/consensus/leader.rs:189-201 | each value below the total selects exactly one index, and the values selecting an index number exactly its weight |
| `Leader.TotalFitsU128` | src/consensus/leader.rs:54-70 | the sum of up to a thousand weights does not overflow |
| `Leader.Pick` | src/consensus/leader.rs:189-213 | the loop always stops inside, at the weighted choice, so the fallback is unreachable and its running sum cannot overflow |
| `Leader.TotalWeight` | src/consensus/leader.rs:180 | the true sum of the active weights, or the abort exactly when it needs more than 128 bits |
| `Leader.ActiveAreActive` | src/consensus/leader.rs:173 | only active entries of the map can be selected |
| `Leader.LeaderSelector.SelectLeader` | src/consensus/leader.rs:172-213 | the two error cases and the overflow abort exactly, and else the weighted choice for the seed's random value under the given visiting order; what the weights are is `WeightExactly` and `ChancesAreStakes` |
| `Leader.LeaderSelector.SetActive` | src/consensus/leader.rs:117-132 | changes the active flag of a known entry and nothing else |
| `Leader.LeaderSelector.ApplyOnchainStakes` | src/consensus/leader.rs:146-155 | every entry's stake becomes that of its wallet in the snapshot, or zero |
| `LeaderAgreement.TotalIgnoresOrder` | src/consensus/leader.rs:180-187 | the total, and so the random value drawn from a seed, is the same for every visiting order |
| `LeaderAgreement.NodesAgreeExactly` | src/consensus/leader.rs:162-201 | for a given seed all visiting orders select the same leader exactly when some validator's weight exceeds the value drawn and the others' weights do not |
| `LeaderAgreement.SameLeaderForValue` | src/consensus/leader.rs:189-201 | the same for a given random value below the total |
| `LeaderAgreement.SameLeaderExactly` | src/consensus/leader.rs:162-201 | all visiting orders select the same leader for all random values exactly when at most one validator carries weight |
| `LeaderAgreement.ReachableEntriesAreKeyed` | src/consensus/transact.rs:580-724 | in every run the selector's entries are keyed by their own node ids |
| `Bgm17.ApplyScalarToG1Vec` | src/ceremony/bgm17.rs:215-219 | every element of the vector is scaled in place |
| `Bgm17.ApplyContribution` | src/ceremony/bgm17.rs:114-149 | the key becomes the key after one contribution, with its proof, blinded by the nonce (`ProofHidesScalar`); a zero scalar is refused and leaves the key alone |
| `Bgm17.ContributionsCompose` | src/ceremony/bgm17.rs:114-149 | contributing by a and then b is contributing by their product |
| `Bgm17.ContributionUndone` | src/ceremony/bgm17.rs:114-149 | contributing by the inverse scalar gives the key back |
| `Bgm17.ProductWithDeltaConstant` | src/ceremony/bgm17.rs:126-134 | a query element times the delta keeps its value |
| `Bgm17.HonestProofAccepted` | src/ceremony/bgm17.rs:180-213 | an honest proof is accepted for every nonce and challenge function exactly when both deltas are non-zero |
| `Bgm17.NonceShows` | src/ceremony/bgm17.rs:135-146 | the commitments of a proof determine its nonce: they are equal exactly for equal nonces |
| `Bgm17.ProofHidesScalar` | src/ceremony/bgm17.rs:135-146 | for every key, scalar, challenge and response exactly one nonce gives that response, and the proof is then the one anybody could make up from the challenge, the response and the two keys |
| `Bgm17.AcceptedWithMeans` | src/ceremony/bgm17.rs:180-213 | which of the three answers a response gets, in exponents |
| `Bgm17.ScalarExtracted` | src/ceremony/bgm17.rs:180-213 | two accepting responses to the same commitments under different challenges give one non-zero scalar that explains both groups |
| `Bgm17.AcceptedStepExplained` | src/ceremony/bgm17.rs:180-213 | every accepted step, from any deltas, is explained by one scalar in both groups, or no scalar explains it and its challenge is the single bad value of its commitments |
| `Bgm17.MismatchedStepFitsOneChallenge` | src/ceremony/bgm17.rs:180-213 | a step by different scalars in the two groups is answerable for exactly one challenge value |
| `Transcript.Phase2Transcript.constructor` | src/ceremony/transcript.rs:241-249 | an empty chain from the given initial digest |
| `Transcript.Phase2Transcript.Append` | src/ceremony/transcript.rs:269-281 | accepts exactly when the extended chain links up, and else reports the position and changes nothing |
| `Transcript.Phase2Transcript.VerifyChain` | src/ceremony/transcript.rs:289-298 | accepts exactly the intact chains and else reports the first broken link |
| `Transcript.ChainExactly` | src/ceremony/transcript.rs:289-298 | a chain is intact exactly if its first contribution names the initial digest and each later one the digest of the one before |
| `Transcript.ExtendChain` | src/ceremony/transcript.rs:269-281 | an extended chain is intact exactly when the chain was and the new link names its tip |
| `Transcript.TamperingSurfacesNext` | src/ceremony/transcript.rs:283-298 | replacing a contribution before the last is reported exactly one position later, unless its digest is the same |
| `Transcript.PinnedTipFixesHistory` | src/ceremony/transcript.rs:289-298 | intact chains with the same initial digest and tip digest are equal, or exhibit a collision or a hit on the initial digest |
| `CeremonyVerifier.VerifyPhase2Transcript` | src/ceremony/verifier.rs:81-112 | accepts exactly the intact chains whose every contribution passes against its predecessor, and else reports the first failure |
| `CeremonyVerifier.StepRefusedExactly` | src/ceremony/verifier.rs:81-112 | a refusal names the position and the first part of the contribution that does not decode, or else the proof |
| `CeremonyVerifier.VerifyFinalPk` | src/ceremony/verifier.rs:128-149 | accepts exactly when the key's deltas are those the chain ends on |
| `CeremonyVerifier.ScalarPowers` | src/ceremony/verifier.rs:299-307 | the vector of successive powers |
| `CeremonyVerifier.CheckQueryConsistency` | src/ceremony/verifier.rs:264-296 | accepts exactly when the combined pairings agree for the derived challenge |
| `CeremonyVerifier.VerifyFinalPkConsistency` | src/ceremony/verifier.rs:185-253 | accepts exactly when the fixed part is unchanged, lengths agree and both batched checks pass; a refusal names an element that was altered, the vector of wrong length, or the first inconsistent vector |
| `CeremonyVerifier.RhoBinds` | src/ceremony/verifier.rs:310-333 | the combination challenge depends on both vectors, both deltas and the vector's name, and on nothing else of the keys |
| `BatchSoundness.BatchedCheckSound` | src/ceremony/verifier.rs:264-307 | if all elements are exact scalings every challenge accepts; if one is not, at most n - 1 field elements do |
| `BatchSoundness.AcceptsIffRoot` | src/ceremony/verifier.rs:279-293 | the batched check accepts exactly at the roots of the difference polynomial |
| `BatchSoundness.MsmIsEval` | src/ceremony/verifier.rs:279-293 | combining a vector with powers evaluates it as a polynomial |
| `Polynomial.RootBound` | src/ceremony/verifier.rs:255-263 | a polynomial with n coefficients, not all zero, has at most n - 1 roots in the field |
| `Ceremony.Contribute` | src/ceremony/contribute.rs:63-107 | fails only for a zero scalar, never on the chain check; otherwise key and transcript are extended by the turn, the last contribution names its contributor and publishes the key's new deltas, and an intact chain stays intact |
| `Ceremony.HonestCeremonyAccepted` | src/ceremony/verifier.rs:81-253 | any sequence of non-zero contributions to a key with non-zero deltas passes all three checks, for all nonces, challenges and hashes, and equals one contribution by the product |
| `Ceremony.AcceptedKeyIsOneContribution` | src/ceremony/verifier.rs:81-253 | any final key that passes all three checks is the initial key after one contribution, or some position's challenge is its single bad value, or a combination challenge is among its fewer than n bad ones |
| `Ceremony.ExplainedKeyIsOneContribution` | src/ceremony/verifier.rs:81-253 | with a scalar explaining each step the contribution is by their product |
| `Ceremony.HonestScalarsExplain` | src/ceremony/contribute.rs:63-107 | the scalars of an honest ceremony explain every step of its transcript |
| `Ceremony.TurnsAreOneContribution` | src/ceremony/contribute.rs:63-107 | any turns amount to one contribution by the product of their scalars |
| `Ceremony.HonestChainAccepted` | src/ceremony/verifier.rs:81-112 | the honest transcript is accepted and ends on the key's own deltas |
| `Ceremony.QueriesStayExact` | src/ceremony/verifier.rs:185-253 | after a contribution every query element is the exact scaling of the original |
| `Ceremony.BadRhos` | src/ceremony/verifier.rs:264-296 | fewer challenges than the vector has elements let a wrong vector pass, and none for an empty or exact one |
| `Ceremony.DeltasFollowScalars` | src/ceremony/verifier.rs:81-112 | on an accepted, explained chain the deltas are the initial ones times the product so far |
| `Ceremony.HonestCeremonyNeedsDeltas` | src/ceremony/bgm17.rs:188-193 | an honest ceremony of at least one turn is accepted exactly from a key with non-zero deltas, and else refused at its first contribution |
| `Ceremony.EmptyTranscriptZeroDelta` | src/ceremony/verifier.rs:128-253 | with no contribution and a zero delta the three checks accept any query vectors |
| `Policy.PromotedKeyIsContributed` | src/ceremony/policy.rs:103-143 | a promoted key is the initial key after one contribution by a scalar other than zero and one, or some challenge took a bad value; with enough contributions and the pinned initial digest |
| `Policy.HonestCeremonyPromoted` | src/ceremony/policy.rs:103-143 | an honest ceremony from the pinned key is promoted exactly with enough turns whose product is not one and the pinned tip if any |
| `Policy.RefusalsAreTrue` | src/ceremony/policy.rs:103-143 | a refusal says what is missing, and that is missing |
| `Policy.PinnedPolicyAdmitsOneHistory` | src/ceremony/policy.rs:103-143 | with a pinned tip two admitted intact transcripts are the same, short of a collision |
| `SweepProofs.SweepOutcome` | src/compute/distribution.rs:280-579 | a sweep keeps the maps disjoint and every unselected assignment, empties active of the selected ones, and leaves a selected job pending only as a retry at a known validator |
| `SweepProofs.LostExactly` | src/compute/distribution.rs:430-579 | the lost jobs are exactly those out of retries or without anyone with room at their turn; the reported ones are exactly the others |
| `SweepProofs.FailureHandled` | src/compute/distribution.rs:430-579 | afterwards nothing names the failed validator, all other assignments are unchanged and survivors carry one retry more |
| `SweepProofs.TimeoutsHandled` | src/compute/distribution.rs:280-427 | afterwards nothing left is timed out at that clock, and the reported ids are distinct |
| `SweepProofs.FourRoundsDrain` | src/compute/distribution.rs:97-127 | four rounds in which everything times out empty the coordinator |
| `SweepProofs.RoundRaisesRetries` | src/compute/distribution.rs:107-120 | each such round raises the least retry count by one |
| `SweepProofs.ReachableStatesAreBounded` | src/compute/distribution.rs:155-579 | in every reachable state no retry count exceeds three, and no job is both pending and active unless one was assigned while active |
| `SweepProofs.AssignKeepsDisjoint` | src/compute/distribution.rs:206-238 | assigning keeps the maps disjoint exactly for ids that are not active |
| `Handovers.SurvivesThreeTimeouts` | src/compute/distribution.rs:280-427 | a newly assigned job that finds room at each of its turns, whatever happens in between, survives exactly three timeouts |
| `Handovers.OneTimeout` | src/compute/distribution.rs:280-427 | with room for it a job outlives a timeout exactly if it was handed over less than three times, and then carries one retry more |
| `Handovers.AssignmentLasts` | src/compute/distribution.rs:65-120 | an assignment, new or retried, is timed out exactly from five minutes after it was given; a new one has no retries |
| `Handovers.FetchMovesOne` | src/compute/distribution.rs:241-255 | fetching keeps every assignment as it is, deadline and retries included, and leaves the fetched one no longer pending |
| `Handovers.HandoverKeepsBalance` | src/compute/distribution.rs:301-345 | as long as everybody has room, handing a job over keeps any two loads within one of each other |
| `Handovers.LeastLoadedInProducts` | src/compute/distribution.rs:206-238 | a new job goes to a validator with spare capacity whose share in use is the least, compared without division |
| `LoadLimits.PendingPassSafeExactly` | src/compute/distribution.rs:301-321 | over given validators and active jobs every pending turn from every state within the limits stays within them exactly when no known validator has fetched a job, or the active jobs alone exceed a limit |
| `LoadLimits.OverloadingTurn` | src/compute/distribution.rs:306-313 | whenever a known validator has fetched a job there is a pending turn from disjoint maps within the limits that exceeds one |
| `LoadLimits.OverloadIsReachable` | src/compute/distribution.rs:280-345 | a history from the empty coordinator whose timeout sweep takes a validator beyond its limit |
| `LoadLimits.ActivePassKeepsLimits` | src/compute/distribution.rs:351-415 | an undisturbed pass over active jobs from a state within the limits ends within them |
| `LandingJobs.ActivePassSafeExactly` | src/compute/distribution.rs:369-400 | over given validators no turn of an active pass can be taken beyond a limit by assignments landing inside it exactly when nobody announces spare capacity |
| `LandingJobs.SafeAgainstLandingExactly` | src/compute/distribution.rs:369-400 | a turn is safe against assignments that land between its load count and its write, and keep the limits themselves, exactly when none can go to the validator it chose |
| `LandingJobs.ReachableValidatorsAreKeyed` | src/compute/distribution.rs:155-173 | in every reachable state validators are known under the ids they announced |
| `LoadLimits.SweepKeepsLimits` | src/compute/distribution.rs:280-579 | a whole undisturbed sweep does if no known validator has fetched a job or nothing pending is selected |
| `LockOrder.OrderedNeverDeadlocks` | src/compute/distribution.rs:133-142 | any number of programs that take the three fair locks in rank order, in every reachable state, can go on until all are done |
| `LockOrder.NeverBlocksExactly` | src/compute/distribution.rs:155-600 | no pool of the coordinator's operations, with sweeps and failure handling that have this much to hand over, ever reaches a deadlock, exactly when there is nothing to hand over |
| `LockOrder.WithoutHandoverNoDeadlock` | src/compute/distribution.rs:155-277 | any pool of fetches, removals, load and statistics queries, assignments, announcements, and of sweeps and failure handling with nothing to hand over, never blocks |
| `LockOrder.OperationsAreOrdered` | src/compute/distribution.rs:155-277 | each of these operations takes the locks in rank order and ends without any |
| `LockOrder.SweepOrderedExactly` | src/compute/distribution.rs:280-427 | a sweep takes the locks in that order exactly when no selected job has retries left |
| `LockOrder.SweepAndFetchDeadlock` | src/compute/distribution.rs:351-369 | a sweep with an active job to hand over and a fetch reach a state in which neither can go on |
| `LockOrder.SweepAssignAnnounceDeadlock` | src/compute/distribution.rs:285-302 | a sweep with a pending job to hand over, an assignment and an announcement reach such a state, because a waiting writer goes ahead of later readers |
| `JobCoordination.JobCoordinator.constructor` | src/compute/distribution.rs:146-152 | no validators and no assignments |
| `JobCoordination.JobCoordinator.UpdateValidatorCapacity` | src/compute/distribution.rs:155-166 | the announcement replaces the validator's entry |
| `JobCoordination.JobCoordinator.RemoveValidator` | src/compute/distribution.rs:169-173 | forgets the validator and keeps all assignments |
| `JobCoordination.JobCoordinator.AssignJob` | src/compute/distribution.rs:206-238 | assigns to an entry with spare announced capacity and least load factor, or to nobody exactly when no entry has spare capacity |
| `JobCoordination.JobCoordinator.MarkJobFetched` | src/compute/distribution.rs:241-255 | moves a pending assignment to active, unchanged |
| `JobCoordination.JobCoordinator.RemoveAssignment` | src/compute/distribution.rs:268-277 | the job is in neither map and all others stay |
| `JobCoordination.JobCoordinator.FindBest` | src/compute/distribution.rs:301-321 | a least-loaded validator with room, or none exactly when nobody has room |
| `JobCoordination.JobCoordinator.Reassign` | src/compute/distribution.rs:294-345 | one job's turn: given up when out of retries or without room, else retried by a best validator |
| `JobCoordination.JobCoordinator.HandleTimeouts` | src/compute/distribution.rs:280-427 | is a sweep over the timed-out assignments that returns the handed-over ids in order; from disjoint maps nothing timed out is left, and with nothing fetched the limits are kept |
| `JobCoordination.JobCoordinator.HandleValidatorFailure` | src/compute/distribution.rs:430-579 | is a sweep over the failed validator's assignments whose count is the number of distinct jobs handed over; with nothing fetched the limits are kept |
| `Executor.EveryAcceptanceAccounted` | src/compute/executor.rs:144-251 | in every interleaving and for any ids, an id occurs over all places as often as it was accepted, counting results that later ones of the same id replaced |
| `Executor.ExactlyOnePlace` | src/compute/executor.rs:144-251 | in every interleaving jobs start in submission order, the active map has at most 4 entries, 64 jobs wait and 1024 results are kept, and a job whose id was accepted once is in exactly one of eight places |
| `TaskLimit.AtMostFourExactly` | src/compute/executor.rs:155-212 | clients that submit given ids never have more than four tasks at work exactly when there are at most four submissions or no id is repeated before the last |
| `TaskLimit.FiveUnderOneId` | src/compute/executor.rs:158-212 | a run in which five jobs under one id execute at once while the active map has one entry |
| `TaskLimit.FourRuleAlways` | src/compute/executor.rs:155-212 | in every state of every run, as long as only the last start may have repeated an id, at most four tasks execute |
| `Executor.InvStep` | src/compute/executor.rs:155-251 | every atomic step of the loop, of a task and of a client keeps acceptances accounted for, order, limits and the relation of map and tasks |
| `Executor.InvAlways` | src/compute/executor.rs:155-251 | they hold in every state of every interleaving |
| `JobExecution.JobExecutor.constructor` | src/compute/executor.rs:52-64 | the machine's empty state |
| `JobExecution.JobExecutor.SubmitJob` | src/compute/executor.rs:67-93 | accepts exactly below 64 waiting jobs, at the end of the queue, as the machine's submit step |
| `JobExecution.JobExecutor.StartNext` | src/compute/executor.rs:156-222 | the first half of a loop iteration is a path of the machine that starts the oldest waiting job exactly when a slot is free |
| `JobExecution.JobExecutor.FinishTask` | src/compute/executor.rs:199-212 | a task's end is a path of the machine: its id out of the active map, then its result onto the channel |
| `JobExecution.JobExecutor.ProcessResults` | src/compute/executor.rs:231-251 | drains the channel along a path of the machine; each kept entry is its job's latest result, the last one received is kept, and nothing is lost below the ceiling |
| `JobExecution.JobExecutor.LoopIteration` | src/compute/executor.rs:155-225 | an undisturbed iteration keeps the machine's invariant |
| `JobExecution.JobExecutor.ClearCompleted` | src/compute/executor.rs:300-304 | takes the machine's clear step |
| `JobExecution.PathKeepsInv` | src/compute/executor.rs:155-251 | every undisturbed stretch of steps keeps the machine's invariant |
| `Agreement.FinalExactlyUpToThree` | src/compute/verification.rs:98-247 | no later submissions change an agreed result, whole, exactly when at most three different validators are assigned |
| `Agreement.AgreementStable` | src/compute/verification.rs:183-247 | among three, every possible answer on more results is the same agreed result |
| `Agreement.AgreementExactly` | src/compute/verification.rs:183-247 | an agreement on a result is possible exactly if it is the first submitted one of a most frequent key that occurs at least twice |
| `Agreement.SameKeyExactly` | src/compute/verification.rs:206-214 | results are grouped together exactly if they have the same output or neither has a non-empty one |
| `Agreement.FailureAgreesWithEmptyOutput` | src/compute/verification.rs:206-234 | a failed job without output agrees with a completed one whose output is empty, and the failure is returned |
| `Agreement.NoAgreementExactly` | src/compute/verification.rs:183-247 | the answer is insufficient exactly below two results, and a disagreement exactly if no two results have the same key |
| `Agreement.AgreementHasTwo` | src/compute/verification.rs:183-247 | an agreement stands on results of two different assigned validators with the same key, one of them the result returned |
| `Agreement.FourCanFlip` | src/compute/verification.rs:213-219 | with any four validators two later results can overturn an agreement through a tie |
| `Agreement.SubmissionsKeep` | src/compute/verification.rs:126-180 | any submissions only extend the results, with at most one per assigned validator |
| `Agreement.VerificationCoordinator.CreateVerificationRequest` | src/compute/verification.rs:98-123 | succeeds exactly with at least three validators listed and records the request |
| `Agreement.VerificationCoordinator.SubmitResult` | src/compute/verification.rs:126-180 | fails exactly for an unknown job or unassigned validator, ignores repeats, else appends; other jobs are untouched |
| `Agreement.VerificationCoordinator.CheckConsensus` | src/compute/verification.rs:183-247 | answers by a largest group of equal outputs, whichever the map's order finds |
| `Agreement.VerificationCoordinator.Cleanup` | src/compute/verification.rs:262-270 | forgets the job's request and results and nothing else |
| `Merkle.IncrementalMerkleTree.constructor` | programs/paraloom/src/merkle_tree.rs:174-183 | the empty tree has the root of an empty subtree and stores what the next append needs |
| `Merkle.IncrementalMerkleTree.Climb` | programs/paraloom/src/merkle_tree.rs:190-207 | hashing up from the new leaf gives the root of the padded tree of all leaves and stores the left children on the way |
| `Merkle.IncrementalMerkleTree.Append` | programs/paraloom/src/merkle_tree.rs:187-216 | after any number of appends the root is that of the padded tree of all leaves; a full tree refuses and stays as it is |
| `Merkle.IncrementalMerkleTree.IsKnownRoot` | programs/paraloom/src/merkle_tree.rs:220-236 | true exactly for a non-empty root among the last 64 the tree has had |
| `Membership.DerivePath` | src/bin/demo_transact_v3.rs:91-108 | the path holds the stored left child at each set bit of the index and the empty subtree elsewhere |
| `Membership.FoldPath` | src/bin/demo_transact_v3.rs:109-118 | the loop folds the path from the leaf upwards |
| `Membership.DerivedPathFolds` | src/bin/demo_transact_v3.rs:85-123 | for every hash, depth and number of leaves, if the left siblings at set bits are stored, the derived path folds from the last leaf to the root |
| `Membership.LastLeafMembership` | src/bin/demo_transact_v3.rs:85-123 | on every tree built by appends the derived path folds from the last leaf to the tree's own root |
| `Membership.ReadMembership` | src/relayer/transact_submit.rs:88-141 | for any index and claimed leaf, accepts exactly if the derived path folds to the root; what it accepts is the leaf at that position with its true path or a hash collision on the way; it accepts the last leaf, and an earlier one only if a collision occurs or the last leaf's subtree looks empty |
| `Membership.FoldsExactly` | src/relayer/transact_submit.rs:124-136 | a path folds to the node above a position if the leaf and all siblings are the tree's own, and only then or if two different pairs hash alike at some level |
| `Membership.EarlierPathIsFalse` | src/relayer/transact_submit.rs:105-122 | the path derived for an earlier leaf is the true one only if the subtree holding the last leaf hashes like an empty one |
| `Membership.ReadFirstOfTwo` | src/relayer/transact_submit.rs:88-141 | on the tree of two leaves the reader refuses the first one exactly if the hash tells the second leaf from an empty one |
| `Membership.FirstOfTwoLeaves` | src/relayer/transact_submit.rs:105-136 | the path derived for the first of two leaves folds to its hash with an empty leaf, while the root is its hash with the second |
| `Membership.FoldAtPosition` | src/relayer/transact_submit.rs:110-133 | index bits above the depth do not matter |
| `Merkle.NodeBeyondIsEmpty` | programs/paraloom/src/merkle_tree.rs:97-140 | nodes to the right of the last leaf are empty-subtree hashes |
| `Merkle.StoredLeftSibling` | programs/paraloom/src/merkle_tree.rs:190-207 | what is stored at a level is the left sibling an append at an odd position needs |

## Left out

- Curve arithmetic, point serialization, SHA-256, SHA-512, Poseidon, Groth16 proving and signature checks are library code; they are exponents and arbitrary functions here. Point decoding may fail; whether it checks the subgroup is not modelled.
- Fiat-Shamir challenges are arbitrary functions, so nothing is said about the chance of a bad challenge, only how many there are.
- `TransactInterleaved`: the reads of a stake check are two steps, the total and then the rest, as its locks allow; the check of the round's own canonical id, wallet and signature is one step with the arrival of the vote, because it reads nothing but the wallet set.
- The flap theorems and `TransactHistory` are about runs in which each operation is one step.
- Reputation, slashing evidence storage, timeout streaks, the persisted ban file and logging do not influence counting and are not modelled; the ban set loaded at start is a parameter.
- The minimum number of validators is fixed for a run; changing it between runs is a setter of the configuration.
- Leader probability and ranking helpers, completion percentages and statistics use floating point or restate other state.
- `JobCoordination.JobCoordinator.AssignJob`: load factors are exact rationals instead of 64-bit floats, so ties created by rounding are not captured.
- `LoadLimits.SweepKeepsLimits`: for undisturbed sweeps; what assignments landing inside an active turn do is in `LandingJobs`, and `LockOrder` follows the locks without the assignments.
- `Executor.ExactlyOnePlace`: one loop has been started, and a task's result carries its job's id.
- `Agreement.FinalExactlyUpToThree`: the request is not created anew or cleaned up in between.
- `src/compute/manager.rs`: not modelled; when validators run out it puts back one drained job only, so conservation does not hold there.
- `Merkle.IncrementalMerkleTree.Append`: hashing cannot fail here, while Poseidon refuses byte strings that are not canonical field elements.
- WebAssembly execution, model inference, attestation, the command line, RPC, networking and file formats are I/O around these parts.
