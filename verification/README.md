# Verified models of the Axyl node

Axyl orders batches with a DAG-based Byzantine-fault-tolerant consensus and executes them in an EVM
chain. This project models the parts of the node and of its operator tools in which a clever
implementation has to equal a simple specification, and proves that it does. Each operation is
modelled in the form the code has: loops and mutable objects as methods and classes, pure
computations as functions. A method is proved equal to a specification function, and the laws are
lemmas about that function, over every input and every run.

| files | component |
|---|---|
| `consensus_chain`, `backwards_walk`, `walk_coverage`, `walk_limits`, `walk_sources` | the backwards walk that follows parent hashes from a gossiped tip, the covered anchor it keeps, exactly when it keeps it, and where cached headers come from |
| `reward_tally`, `bounded_walker`, `walker_equivalence` | the replay's reward walker: binary search, lookahead and resumed cursor against the whole-table tally and the live walker |
| `participation` | the inspection tool's participation report, a second implementation of the same tally |
| `certifier`, `header_streams`, `vote_failures` | the certifier's run loop with its proposal tasks, the header streams it certifies once, and the vote-failure tracker that demotes a node |
| `quorum_waiter` | the worker's stake accounting for a batch |
| `replay`, `replay_groups`, `replay_run` | the replay pipeline: plan windows, grouping by output, safe points and resumption |
| `header_check`, `header_verdict`, `epoch_check`, `epoch_verdict` | the two chain auditors and their verdicts |
| `certificate_fetcher` | the tightened bound and the wire form of a request for missing certificates |
| `kad_store` | the Kademlia store's counters and provider lists over a fallible database |
| `execution_wait` | the recently-executed window and the wait for a block |
| `civil_date` | the conversion of seconds to a calendar date |
| `tables` | optional values and ordered iteration, shared by the others |

`dafny verify dfyconfig.toml` checks the whole project.

## What the models assume

- Digests are symbolic: a digest is the content it was computed from, so digests are injective and no
  header is its own ancestor. Signatures and other fields a digest does not cover are not in it.
- A signature check is a predicate: a stored header lists the committees its certificates verify
  against, an epoch record whether its certificate verifies.
- Time, scheduling, peers, faults and shutdown requests are inputs: sequences of events, replies,
  responses, views and signals about which nothing is assumed unless a lemma says so.
- Coverage is proved for tables whose rows lie under their headers' numbers, which walks, commits and
  restarts keep, and for headers numbered one above their parents. Cache writes that fail, commits
  that conflict with the tables and shutdowns are part of the model; `walk_limits` and the commit
  lemmas of `walk_coverage` say exactly when they break coverage.
- One vote error is handled at a time, and the clock does not run backwards.
- A restart drains the certificate manager, and stored certificates are not collected while their
  headers can still be proposed.

## Where the code differs from what it says

- The wait's log and comments speak of the hash at the target number, but the code accepts the hash
  anywhere in the window (`ExecutionWait.ForkIsMissed`; exactly when, `ExecutionWait.DecidesIffNamed`).
- An epoch reset reads the last block and replaces the window in two steps, so that blocks executed in
  between are lost and called forked (`ExecutionWait.LostBlocksFork`, `ExecutionWait.SuffixIffQuiet`).
- A failed cache write is only logged, yet the walk goes on to report coverage
  (`WalkLimits.LostWriteBreaksCoverage`; exactly when, `WalkLimits.CoveredGroundsIff`).
- A commit supersedes whatever header has its number, also one the anchor stands on
  (`WalkLimits.ConflictingCommitBreaksCoverage`; exactly when, `WalkCoverage.CommitGroundsIff`).
- The header check calls a chain intact without comparing a row's key with its number
  (`HeaderVerdict.MisfiledRowIsOk`; what intact means is `HeaderCheck.IntactIffChained`, and when the
  hops are the numbers from the start down `HeaderCheck.HopsDescendIff`).
- The cap on provided keys is compared for equality, so a store counted above it grows without end
  (`KadStore.AboveCapGrows`; exactly when it holds, `KadStore.CapHoldsIffFromBelow`).
- The request that clamps a skip-round below its bound expects the certificate to be fetched again;
  rounds at or below the bound are not asked for at all, so nothing changes
  (`CertificateFetcher.RequestRoundTrips`).

## Model

| member | source | states |
|---|---|---|
| BackwardsWalk.FetchHeader | crates/consensus/state-sync/src/consensus.rs:122-158 | the attempt loop is the fetch specification, which ends at the first answer for the digest, verified or not |
| WalkSources.FetchedIff | crates/consensus/state-sync/src/consensus.rs:122-158 | a fetch yields a header exactly when one of three attempts served the header of that digest, its committee keys arrived and its signatures verified, and every attempt before it failed or answered another digest |
| WalkSources.FetchesAreVouched | crates/consensus/state-sync/src/consensus.rs:103-159 | every header a walk fetches was served by a peer and verified |
| WalkSources.WalkVouched | crates/consensus/state-sync/src/consensus.rs:273-316 | every row a walk leaves in the cache was there before it or holds a header that was served and verified |
| WalkSources.CacheIsVouched | crates/consensus/state-sync/src/consensus.rs:217-316 | over every run of walks, commits and restarts, whatever peers answer, a cached row is one from before the run or a header served to one of its walks and verified |
| WalkSources.ForgeryIsRefused | crates/consensus/state-sync/src/consensus.rs:140-144 | an answer for the digest whose keys do not arrive or whose signatures fail ends the fetch with nothing |
| BackwardsWalk.Sweep | crates/consensus/state-sync/src/consensus.rs:195-214 | one pass over the cached rows in key order is the sweep specification, for rows filed under any key and stopping at an unreadable one |
| BackwardsWalk.DeriveCoveredAnchor | crates/consensus/state-sync/src/consensus.rs:184-215 | the recovered anchor is that of the anchor specification, none when the tip row cannot be read |
| WalkCoverage.AnchorStart | crates/consensus/state-sync/src/consensus.rs:185-194 | the sweep starts above the last row of the canonical table, or above genesis while that table is empty, and there is no anchor when the last row cannot be read |
| BackwardsWalk.WalkSession.RepublishIfHigher | crates/consensus/state-sync/src/consensus.rs:85-96 | the published tip moves only to a higher number |
| BackwardsWalk.WalkSession.Descend | crates/consensus/state-sync/src/consensus.rs:103-159 | one step down changes the tables and the tip as the step specification says: stop at the canonical chain, traverse a stored header, or fetch, cache and republish one |
| BackwardsWalk.WalkSession.WalkDown | crates/consensus/state-sync/src/consensus.rs:273-316 | the descent loop is the recursive walk: shutdown, coverage and lost-trail outcomes, tables and tip alike |
| BackwardsWalk.WalkSession.SyncTo | crates/consensus/state-sync/src/consensus.rs:245-270 | the session after a walk: anchor derived when absent, set on coverage, dropped when incomplete, kept on shutdown with the tracker told to exit |
| WalkCoverage.LookupIsRow | crates/infrastructure/storage/src/stores/consensus_store.rs:130-150 | in well-kept tables a digest is found exactly when the row at its number is that header |
| WalkCoverage.StoredRows | crates/consensus/state-sync/src/consensus.rs:23-32 | after a cache write the header is stored, and another header is stored exactly if it was and has another number or is canonical |
| WalkCoverage.PromotedRows | crates/consensus/state-sync/src/lib.rs:189-249 | after an executor commit its header is canonical, and another header is stored, or canonical, exactly if it was and has another number |
| WalkCoverage.PromotedIndex | crates/consensus/state-sync/src/lib.rs:189-249 | a commit leaves no index entry for a header it supersedes in either table and touches no other |
| WalkCoverage.CommitGroundsIff | crates/consensus/state-sync/src/lib.rs:189-249 | a commit, whatever it supersedes, leaves a grounded digest grounded exactly when no other header of its number lies on the way down to the first canonical one |
| WalkCoverage.StepKeeps | crates/consensus/state-sync/src/consensus.rs:103-159 | a step down, with the commits made while it waits, leaves the header it passed stored and loses no ancestor of the start at another number |
| WalkCoverage.WalkKeeps | crates/consensus/state-sync/src/consensus.rs:273-316 | a whole walk keeps every stored ancestor of its start numbered above the digest it starts from |
| WalkCoverage.GroundedKept | crates/consensus/state-sync/src/consensus.rs:217-232 | reaching the canonical chain from a digest survives every change that keeps the headers from its number down |
| WalkCoverage.WalkGrounds | crates/consensus/state-sync/src/consensus.rs:273-316 | a walk that reports coverage has made its start reach the canonical chain or genesis through stored headers |
| WalkCoverage.ClimbIsLongest | crates/consensus/state-sync/src/consensus.rs:195-214 | climbing ends exactly at the end of the longest hash-linked run |
| WalkCoverage.AnchorIsLongestRun | crates/consensus/state-sync/src/consensus.rs:184-215 | over rows filed under their numbers the recovered anchor is the head of the longest number-contiguous, hash-linked cached run above the last canonical row or genesis, and is absent exactly when that run is empty or the row cannot be read, for every cache with gaps, forks and stale rows |
| WalkCoverage.KeyedOverRuns | crates/consensus/state-sync/src/consensus.rs:23-32 | walks, commits and restarts keep cache rows filed under their numbers |
| WalkCoverage.AnchorHeadsARun | crates/consensus/state-sync/src/consensus.rs:184-215 | whatever keys rows are filed under, a recovered anchor heads a hash-linked run of cached headers numbered consecutively from the last canonical row or genesis |
| WalkCoverage.AnchorGrounded | crates/consensus/state-sync/src/consensus.rs:184-215 | a recovered anchor reaches the canonical chain through stored headers |
| WalkCoverage.ApplyKeepsCoverage | crates/consensus/state-sync/src/consensus.rs:245-270 | a walk, a commit that displaces nothing under the anchor, or a restart keeps the anchor of a live session grounded |
| WalkCoverage.CommitKeepsCoverageIff | crates/consensus/state-sync/src/lib.rs:189-249 | a commit between walks keeps the guarantee of a live session with an anchor exactly when it displaces no header under the anchor |
| WalkCoverage.CoverageOverRuns | crates/consensus/state-sync/src/consensus.rs:217-316 | over every run of walks to arbitrary targets, forks overwriting cache rows, failed fetches, commits and restarts, in which no commit takes the row of a header the anchor or a walk in progress stands on, the anchor of a live session reaches the canonical chain or genesis through stored headers at every call boundary |
| WalkCoverage.TipIsMaximum | crates/consensus/state-sync/src/consensus.rs:85-159 | the published tip ends as the highest of its old value and every header the walk read or fetched, the old one where it is not exceeded |
| WalkCoverage.VisitedDescends | crates/consensus/state-sync/src/consensus.rs:273-316 | a walk visits consecutive numbers downwards, so it ends within one step per number |
| WalkCoverage.TipOverRuns | crates/consensus/state-sync/src/consensus.rs:85-96 | over any run the published tip changes only to a higher number |
| WalkLimits.CoveredGroundsIff | crates/consensus/state-sync/src/consensus.rs:23-32 | with failing cache writes, a walk that reports coverage has grounded its start exactly when every header it fetched was stored |
| WalkLimits.OutcomeIff | crates/consensus/state-sync/src/consensus.rs:273-316 | with no shutdown or commit meanwhile a walk reports coverage exactly when the way down from its start is stored or served to the anchor, the canonical chain or genesis, and is otherwise incomplete |
| WalkLimits.ShutdownWasRequested | crates/consensus/state-sync/src/consensus.rs:273-316 | a walk ends with a shutdown only if one was requested while it stood at its start or an ancestor of it, and at the start it changes nothing |
| WalkLimits.SyncKeepsCoverageIff | crates/consensus/state-sync/src/consensus.rs:245-270 | a walk keeps the session guarantee exactly when it does not report coverage over a lost write |
| WalkLimits.GroundedAfterWalkIff | crates/consensus/state-sync/src/consensus.rs:273-316 | after a walk from anywhere, however it ends, a grounded digest is still grounded exactly when no header the walk stored takes the row of another header on its uncommitted way down |
| WalkLimits.ShutdownKeepsAnchorIff | crates/consensus/state-sync/src/consensus.rs:252-270 | the anchor a shutdown leaves is grounded exactly under that condition on the headers the stopped walk had stored |
| WalkLimits.WalkHeals | crates/consensus/state-sync/src/consensus.rs:273-316 | a walk that no shutdown stops reports coverage when every ancestor not stored is served and verifies |
| WalkLimits.SyncHeals | crates/consensus/state-sync/src/consensus.rs:263-267 | whatever earlier walks left behind, such a walk ends with its start as the grounded anchor of the session |
| WalkLimits.RestartHeals | crates/consensus/state-sync/src/consensus.rs:217-267 | a restart revives any session, also one that was told to exit: the next such walk ends with its start as the grounded anchor |
| WalkLimits.ShutdownStrandsTheAnchor | crates/consensus/state-sync/src/consensus.rs:252-270 | a concrete walk stopped by shutdown leaves an anchor whose rows it overwrote: the guarantee needs the session to be live |
| WalkLimits.LostWriteBreaksCoverage | crates/consensus/state-sync/src/consensus.rs:23-32 | a concrete walk whose cache write is lost, an error that is only logged, reports coverage over a hole |
| WalkLimits.MisnumberingBreaksCoverage | crates/consensus/state-sync/src/consensus.rs:103-159 | a concrete header numbered like its own parent makes a covered walk ungrounded: the guarantee needs parents at the number below |
| WalkLimits.ConflictingCommitBreaksCoverage | crates/consensus/state-sync/src/lib.rs:189-249 | a concrete commit of another header at the number of the anchor takes the row of the anchor and leaves a live session ungrounded |
| RewardTally.CreditParticipants | bin/rayls-replay/src/rewards.rs:334-346 | the loop over a row's authors credits each distinct execution address of the committee once |
| RewardTally.Credit | bin/rayls-replay/src/rewards.rs:327-346 | crediting a row adds one led round to its leader, one joined round to every distinct participant and one round to the total |
| RewardTally.TallyGrows | bin/rayls-replay/src/rewards.rs:327-346 | row-by-row crediting with saturating counters computes the declarative tally: per address the saturated number of rounds led and joined |
| RewardTally.TallyOfCredited | bin/rayls-replay/src/rewards.rs:319-325 | rows of other epochs, round zero and rounds past the last executed one do not influence a tally |
| BoundedWalker.FindEpochAt | bin/rayls-replay/src/rewards.rs:210-222 | the probe finds the leader epoch of the first row at or after a key |
| BoundedWalker.Position | bin/rayls-replay/src/rewards.rs:224-236 | the binary search loop returns the position of the search specification |
| BoundedWalker.WalkRows | bin/rayls-replay/src/rewards.rs:286-359 | the row loop credits exactly the rows reached before the lookahead is exceeded and parks the cursor at the first later-epoch row |
| BoundedWalker.ReachedIsSpan | bin/rayls-replay/src/rewards.rs:294-318 | the loop stops having read exactly the rows that at most 16 later-epoch rows precede |
| BoundedWalker.BoundedHybridWalker.SetCommittee | bin/rayls-replay/src/rewards.rs:365-367 | the installed committee is the one the next tally uses |
| BoundedWalker.BoundedHybridWalker.CountEpoch | bin/rayls-replay/src/rewards.rs:251-359 | a tally call refuses without a committee, and otherwise returns the walk from the resumed cursor or the binary-search start and leaves the cursor of that walk |
| WalkerEquivalence.SearchSplits | bin/rayls-replay/src/rewards.rs:224-236 | on non-decreasing epochs the binary search over a sparse table ends with only earlier epochs below it and none from it on |
| WalkerEquivalence.PositionedSplits | bin/rayls-replay/src/rewards.rs:224-236 | the start position is the epoch boundary |
| WalkerEquivalence.WalkCreditsUpToLookahead | bin/rayls-replay/src/rewards.rs:160-166 | with no ordering assumption, a walk that starts at or before every row of its epoch and later ones credits exactly its epoch's rows that at most 16 later-epoch rows of the table precede |
| WalkerEquivalence.ParkedStartsBefore | bin/rayls-replay/src/rewards.rs:293-350 | the cursor a walk leaves is at or before every row of a later epoch, so the next ascending call may start there |
| WalkerEquivalence.ReplayCreditsUpToLookahead | bin/rayls-replay/src/rewards.rs:293-350 | over any ascending run of closes on any table, each close is credited its rows up to the lookahead |
| WalkerEquivalence.ReplayIsWholeTable | bin/rayls-replay/src/rewards.rs:210-359 | on non-decreasing epochs every strictly ascending sequence of closes returns, close by close, the tally of the whole table, through the binary-search start and the resumed cursor alike |
| WalkerEquivalence.LiveTally | crates/middleware/rewards/src/lib.rs:161-246 | the live walker's newest-first loop tallies the rows read back before an earlier epoch shows |
| WalkerEquivalence.LiveIsWholeTable | crates/middleware/rewards/src/lib.rs:161-246 | on non-decreasing epochs the live walk is the whole-table tally |
| WalkerEquivalence.BoundedMatchesLive | bin/rayls-replay/src/rewards.rs:160-166 | the bounded walker credits exactly as the live walker, close by close |
| WalkerEquivalence.ServedIsExact | bin/rayls-replay/src/rewards.rs:95-130 | at every close a walked tally is served exactly when the withdrawals of the block are those of the table: an entry for each address that led or joined a credited round, holding its led rounds; what is served is the whole-table tally |
| Participation.HotNumbers | bin/rayls-db-inspect/src/node_db.rs:705-742 | the newest-first listing of hot rows is the epoch's rows read before an earlier epoch shows |
| Participation.EpochHeaderNumbers | bin/rayls-db-inspect/src/node_db.rs:705-742 | the listing is the hot rows and the archive range of the epoch; cache rows without a processed copy are kept apart |
| Participation.ListedIsCanonical | bin/rayls-db-inspect/src/node_db.rs:413-426 | when the tiers agree, the listed headers read back as exactly the processed rows of the epoch |
| Participation.MarkParticipants | bin/rayls-db-inspect/src/report/participation.rs:256-267 | each distinct author of a sub-dag is marked once |
| Participation.CountHeaders | bin/rayls-db-inspect/src/report/participation.rs:214-280 | the walk counts headers, anchors and participations of the counted headers, lists the genesis headers and those past the boundary, and fails exactly at the first header that is unreadable or of another epoch |
| Participation.ReadsBackIff | bin/rayls-db-inspect/src/node_db.rs:413-426 | every listed header reads back with its epoch exactly when each number of the archive range has a header of the epoch in the first tier that holds it, hot, archive, then cache |
| Participation.TallyEpoch | bin/rayls-db-inspect/src/report/participation.rs:152-308 | the report succeeds exactly under that condition on the tiers, and is the count over the listed headers with the cache rows of the epoch kept apart |
| Participation.ReportCountsCanonical | bin/rayls-db-inspect/src/report/participation.rs:152-308 | when the tiers agree the report succeeds and counts the whole processed table |
| Participation.ReportMatchesWalker | bin/rayls-db-inspect/src/report/participation.rs:214-308 | with distinct execution addresses and the boundary at the last executed round, headers, anchors and participations are the whole-table tally's total, leader and participation rounds for every member |
| Participation.TwoImplementationsAgree | bin/rayls-db-inspect/src/report/participation.rs:214-308 | over any ascending run of closes the report and the bounded walker agree on every member |
| Certifier.RunLoop.AbortCurrent | crates/consensus/primary/src/certifier.rs:867-872 | aborting drops the proposal in flight and nothing else |
| Certifier.RunLoop.Receive | crates/consensus/primary/src/certifier.rs:781-889 | the header arm: a header in flight or already stored is refused, otherwise the previous task is aborted before a new one starts |
| Certifier.RunLoop.Stop | crates/consensus/primary/src/certifier.rs:772-780 | shutdown aborts the proposal in flight |
| Certifier.TaskStepKeepsInv | crates/consensus/primary/src/certifier.rs:702-758 | every step of a proposal task, including one already cancelled, keeps the run invariant |
| Certifier.HeaderKeepsInv | crates/consensus/primary/src/certifier.rs:781-889 | every header arrival, with or without a store answer, keeps the run invariant |
| Certifier.RestartKeepsInv | crates/consensus/primary/src/certifier.rs:71-144 | a restart that drains the certificate manager and republishes from the store keeps the run invariant |
| Certifier.RunKeepsInv | crates/consensus/primary/src/certifier.rs:760-893 | the invariant holds over every interleaving in which a header is not sent again after a different one |
| Certifier.OneCertificatePerHeader | crates/consensus/primary/src/certifier.rs:801-872 | in every such interleaving of headers, task steps, aborts, store errors and restarts at most one certificate per header is handed to gossip |
| Certifier.PublishedIsRefused | crates/consensus/primary/src/certifier.rs:826-865 | the store holds every published certificate, so its header is refused when the store answers |
| Certifier.OneRunsOverRuns | crates/consensus/primary/src/certifier.rs:867-889 | in every interleaving, headers sent again included, at most one proposal runs uncancelled, the one in flight |
| Certifier.HeaderDecides | crates/consensus/primary/src/certifier.rs:801-889 | a header becomes the one proposed exactly when the loop runs, the store answers that it has no certificate of it and it is not being proposed already; otherwise no proposal changes |
| Certifier.OverIffEnded | crates/consensus/primary/src/certifier.rs:702-758 | a proposal task is over exactly after it was given up, refused, published or died cancelled, and stays over |
| Certifier.HeldUntilDecided | crates/consensus/primary/src/certifier.rs:702-758 | a certificate handed to the manager stays with it, though its task dies, until it is stored, refused or dropped |
| Certifier.RestartRecovers | crates/consensus/primary/src/certifier.rs:71-144 | a restart stores exactly the held certificates that land, forgets the rest, and hands to gossip exactly the stored certificate of the republished header |
| HeaderStreams.SentIsSince | crates/consensus/primary/src/certifier.rs:781-889 | in every interleaving the headers a certifier has received are those of the stream since its last restart |
| HeaderStreams.ResendDuplicates | crates/consensus/primary/src/certifier.rs:801-872 | every stream of headers and restarts that sends a header again after a different one has an interleaving that hands two certificates of it to gossip |
| HeaderStreams.OnePerHeaderIffOrderly | crates/consensus/primary/src/certifier.rs:801-872 | a stream gets at most one certificate per header to gossip in every interleaving of task steps, aborts, store errors and restarts exactly when between restarts no header is sent again after a different one |
| HeaderStreams.SendingAgainDuplicates | crates/consensus/primary/src/certifier.rs:801-872 | the shortest such stream, two headers and the first again, with its interleaving |
| VoteFailures.VoteFailureTracker.ClearCounters | crates/consensus/primary/src/vote_failure_tracker.rs:84-90 | a certification clears both peer sets and the grace clock |
| VoteFailures.VoteFailureTracker.SkipWithRejectionGrace | crates/consensus/primary/src/vote_failure_tracker.rs:71-76 | the first grace-checked rejection starts the clock and is skipped, later ones until the grace is over |
| VoteFailures.VoteFailureTracker.RequestInactive | crates/consensus/primary/src/certifier.rs:534-543 | a demotion is requested of the epoch manager unless the node is an observer or inactive already |
| VoteFailures.VoteFailureTracker.Handle | crates/consensus/primary/src/certifier.rs:370-531 | a vote error changes the tracker, aborts the proposal and requests the demotion as the handling specification says |
| VoteFailures.VoteFailureTracker.HandleAll | crates/consensus/primary/src/certifier.rs:370-531 | handling a whole trace from a clear tracker leaves the tracker and the pending mode of that trace, and answers event by event whether the proposal is aborted |
| VoteFailures.AnswerAt | crates/consensus/primary/src/certifier.rs:370-531 | each of those answers is that of the trace up to its event |
| VoteFailures.TrackerFollowsTrace | crates/consensus/primary/src/vote_failure_tracker.rs:47-148 | after any trace the tracker holds exactly the distinct peers whose rejections count since the last certification, and its clock started at the first grace-checked one |
| VoteFailures.AbortsIff | crates/consensus/primary/src/certifier.rs:443-496 | over every trace a vote error aborts the proposal exactly when a peer not behind us rejected its epoch, or when it is a too-old rejection that counts and brings the distinct peers that count to the threshold |
| VoteFailures.DemotesIffThreshold | crates/consensus/primary/src/certifier.rs:370-531 | a vote error demotes exactly when it counts for its reason and, with it, as many distinct peers as the threshold count for that reason since the last certification |
| VoteFailures.DemotesIffHalf | crates/consensus/primary/src/vote_failure_tracker.rs:47-58 | in a committee that threshold is half of it, rounded down |
| VoteFailures.DemotionNeedsMajority | crates/consensus/primary/src/vote_failure_tracker.rs:92-114 | a demotion needs half the committee, as distinct peers, rejecting for one same reason since the last certification |
| VoteFailures.MinorityNeverDemotes | crates/consensus/primary/src/vote_failure_tracker.rs:47-58 | a third of the committee or fewer, rejecting however often, never demotes a node |
| VoteFailures.DemotionWaitsOutGrace | crates/consensus/primary/src/vote_failure_tracker.rs:71-76 | a too-old demotion, and one at an epoch boundary, needs a full grace since the first grace-checked rejection after the last certification |
| VoteFailures.FarBehindDemotesAtOnce | crates/consensus/primary/src/vote_failure_tracker.rs:116-128 | whenever the rejections come, the threshold of distinct peers two or more epochs ahead since the last certification demotes a node, and where no nearer peer rejected its epoch nothing less does |
| VoteFailures.OnlyActiveIsDemoted | crates/consensus/primary/src/consensus_bus.rs:750-763 | a trace leaves a request with the epoch manager exactly when some event of it demotes and the node is an active validator, and what is requested is the inactive mode |
| QuorumWaiter.Count | crates/consensus/worker/src/quorum_waiter.rs:164-223 | one response moves its stake and settles the verdict exactly when it makes quorum or makes it impossible |
| QuorumWaiter.VerifyBatch | crates/consensus/worker/src/quorum_waiter.rs:105-234 | over every order of responses and every timeout, quorum is returned exactly when own stake and the acks that came in time reach the threshold with an ack among them, a rejection exactly when rejections alone made quorum impossible first, and a timeout exactly when neither is settled |
| QuorumWaiter.AvailableStake | crates/consensus/worker/src/quorum_waiter.rs:123-131 | the stake still to come is the sum of all peers' stake, saturating at the u64 limit |
| QuorumWaiter.AckedIsTheCount | crates/consensus/worker/src/quorum_waiter.rs:164-201 | quorum equals own stake plus acks reaching the threshold exactly when own stake is below it or somebody acks |
| QuorumWaiter.OrderDoesNotMatter | crates/consensus/worker/src/quorum_waiter.rs:155-224 | whether quorum is reached is the same for every order of the same responses |
| QuorumWaiter.RejectedDespiteNetwork | crates/consensus/worker/src/quorum_waiter.rs:138-141 | a batch is called rejected only if quorum would be missed were every network failure an ack |
| QuorumWaiter.TimeoutOnlyCutsShort | crates/consensus/worker/src/quorum_waiter.rs:228-234 | a verdict reached before the timeout is the verdict without one |
| QuorumWaiter.FailureKindDependsOnOrder | crates/consensus/worker/src/quorum_waiter.rs:213-223 | when two peers are both needed, a rejection and a network failure give whichever error comes first |
| Replay.HeaderRoundTrips | bin/rayls-replay/src/plan.rs:43-55 | the digests live execution puts into a header, output, batch and close-epoch, are the ones replay reads back |
| Replay.PlanRoundTrips | bin/rayls-replay/src/plan.rs:75-106 | replay plans for a block what live execution put into it, with the stored batch unless the block has none |
| Replay.ResolveHeaders | bin/rayls-replay/src/plan.rs:75-106 | taking the fetched batches in turn gives every content block the batch its own digest names, although blocks without a batch were filtered out of the fetch |
| Replay.DerivePlanWindow | bin/rayls-replay/src/plan.rs:63-108 | a window is planned exactly when no batch in it is missing, as a slice of the snapshot's plans; otherwise the first block with a missing batch and its digest are reported |
| ReplayGroups.RunsAreMaximal | bin/rayls-replay/src/lib.rs:207-265 | grouping block by block cuts exactly where the output digest changes |
| ReplayGroups.MaximalRunsUnique | bin/rayls-replay/src/lib.rs:207-265 | there is only one such cutting |
| ReplayGroups.JoinsWhereOutputChanges | bin/rayls-replay/src/lib.rs:207-265 | two stretches replayed one after the other give the groups of the whole exactly when the output changes where they meet |
| ReplayGroups.ClosedRunsStay | bin/rayls-replay/src/lib.rs:217-246 | a group closed by a change of output is final, whatever blocks follow |
| ReplayGroups.ResumedRuns | bin/rayls-replay/src/lib.rs:241-246 | from the block after any number of flushed groups, the groups are the remaining ones |
| ReplayRun.SendWindow | bin/rayls-replay/src/lib.rs:403-424 | one window is sent as read; a short one ends production and a missing batch is an error |
| ReplayRun.ProducePlans | bin/rayls-replay/src/lib.rs:395-425 | for every window size the windows sent are together a first stretch of the range, all resolved, and the whole range unless a batch is missing |
| ReplayRun.Archive.FlushOutputGroup | bin/rayls-replay/src/lib.rs:338-389 | a flush executes the buffered group and moves the tip to its last block, also when it fails after its output is finished; a failure before that changes nothing |
| ReplayRun.Archive.Receive | bin/rayls-replay/src/lib.rs:217-248 | a block of another output flushes the buffered group first, and a shutdown is looked at only then |
| ReplayRun.Archive.ReceiveAll | bin/rayls-replay/src/lib.rs:213-256 | receiving window by window does what receiving the blocks one by one does, wherever the windows are cut |
| ReplayRun.AfterReceiving | bin/rayls-replay/src/lib.rs:207-256 | after any blocks the groups executed are the first maximal runs, each whole, with the last one buffered, or the run has halted at the first flush that met a shutdown or failed |
| ReplayRun.Archive.RunReplay | bin/rayls-replay/src/lib.rs:122-291 | a run from the tip flushes a prefix of the maximal runs of its blocks for every window size, all of them unless stopped at a safe point, failed before or after an output was finished, or short of a batch, and leaves the tip at the last executed block |
| ReplayRun.Archive.ReplayUntilDone | bin/rayls-replay/src/lib.rs:119-291 | runs repeated until one finishes, each stopped or failed at any flush, execute together the groups of one uninterrupted run, none twice and none left out |
| ReplayRun.UnstoppedRunIsExact | bin/rayls-replay/src/lib.rs:207-265 | a run nothing stops flushes exactly the maximal runs of equal output digest, the only such cutting |
| ReplayRun.SnapshotIsNumbered | bin/rayls-replay/src/plan.rs:57-62 | the plans of a snapshot are numbered like its blocks, which the lemmas on stopping and resuming ask of a block sequence |
| ReplayRun.TodoMeans | bin/rayls-replay/src/lib.rs:126-147 | a run has to replay exactly the blocks above the tip, not before the first and not after the last block asked for |
| ReplayRun.ResumePoint | bin/rayls-replay/src/lib.rs:131-132 | a run from the tip that any number of flushed groups leave has exactly the other groups to flush |
| ReplayRun.FlushedThenRest | bin/rayls-replay/src/lib.rs:131-132 | whatever ended a run, what it flushed and what the next run would flush are together what it had to flush |
| ReplayRun.StopsAreTransparent | bin/rayls-replay/src/lib.rs:119-121 | however often a replay is stopped and resumed with the same target, the groups executed are those of an uninterrupted run |
| ReplayRun.RaisedTarget | bin/rayls-replay/src/lib.rs:135-147 | going on to a later target after finishing at one is transparent exactly when the output changes at the first target |
| HeaderCheck.VerifyPart | bin/rayls-db-inspect/src/report/header.rs:171-175 | one thread's results are those of its headers in order |
| HeaderCheck.VerifyHeaders | bin/rayls-db-inspect/src/report/header.rs:162-181 | for every number of cores the chunked verification is the sequential one, in order |
| HeaderCheck.LookUp | bin/rayls-db-inspect/src/report/header.rs:645-652 | after the lookup every pending epoch's committee is cached, and only what the node's records say |
| HeaderCheck.VerifyPending | bin/rayls-db-inspect/src/report/header.rs:639-660 | a batch moves behind the verified hops, each with the check of its own header against the node's committee for its epoch |
| HeaderCheck.PushHop | bin/rayls-db-inspect/src/report/header.rs:595-602 | adding a hop, and verifying a full batch, keeps the hops and their order |
| HeaderCheck.CheckNode | bin/rayls-db-inspect/src/report/header.rs:515-635 | one node's batched walk reports the unbatched one: the start not reached or missing, or every hop with its link and check, and good exactly if every link is intact |
| HeaderCheck.CheckMeans | bin/rayls-db-inspect/src/report/header.rs:145-158 | a header is proved exactly when it is an unsigned genesis or the committee of its leader epoch, from the record of that epoch or of the one before, signed; failed exactly when that committee is known and did not; without keys exactly when it is not known |
| HeaderCheck.WalkReports | bin/rayls-db-inspect/src/report/header.rs:546-617 | the walk reports row by row and link by link: it ends at the start of a chain, after the last parent to follow, or where the row below is absent or has another digest, and otherwise goes on to the row below, the link telling whether the index agrees |
| HeaderCheck.ReportIsWalk | bin/rayls-db-inspect/src/report/header.rs:546-617 | that report is the only one |
| HeaderCheck.WalkReads | bin/rayls-db-inspect/src/report/header.rs:546-617 | the walk starts at the row read under the start and reads each next row under the number below the header before it, at most one more than the parents to follow |
| HeaderCheck.HopsDescendIff | bin/rayls-db-inspect/src/report/header.rs:546-617 | the hops carry the numbers from the start downwards exactly when the start row carries its key and each parent read is numbered one below |
| HeaderCheck.IntactIffChained | bin/rayls-db-inspect/src/report/header.rs:558-592 | over any tables every link is reported intact exactly when a chain of stored, hash-linked and indexed headers leads from the row read to number zero, a zero or genesis parent, or the end of the range |
| HeaderCheck.ChainIsVisited | bin/rayls-db-inspect/src/report/header.rs:558-592 | there is one such chain at most, and its rows are the ones visited |
| HeaderVerdict.FindDivergence | bin/rayls-db-inspect/src/report/header.rs:490-496 | grouping digests by number finds a divergence exactly when two visited hops at one number differ |
| HeaderVerdict.WithSignatureChecks | bin/rayls-db-inspect/src/report/header.rs:185-202 | a failed signature makes the verdict broken, one that cannot be checked makes a good one partial, and nothing else changes |
| HeaderVerdict.ChainOkIff | bin/rayls-db-inspect/src/report/mod.rs:278-316 | the chain verdict is good exactly when there are nodes, none diverges and every walk is intact |
| HeaderVerdict.Report | bin/rayls-db-inspect/src/report/header.rs:465-512 | the report over all nodes, unreadable ones included, carries the views of the nodes and the verdict's code |
| HeaderVerdict.SameStartSameChain | bin/rayls-db-inspect/src/report/header.rs:558-592 | two intact walks from one header visit the same headers |
| HeaderVerdict.DivergesIffDisagree | bin/rayls-db-inspect/src/report/header.rs:490-496 | over any tables a divergence is found exactly when two nodes have visited different headers of one number |
| HeaderVerdict.VerdictIsExact | bin/rayls-db-inspect/src/report/header.rs:465-512 | over any tables the verdict is good exactly when there are nodes, each is readable with a chain that is hash-linked and indexed from the row at the start and whose rows are all genesis or signed by the committee of their epoch, and no two headers visited at one number differ |
| HeaderVerdict.CodesAreExact | bin/rayls-db-inspect/src/report/mod.rs:278-316 | broken exactly for an unreadable node, a visited row its committee did not sign, or, where nodes agree, a node not linked from the start; divergent exactly when nodes differ and nothing is spoiled; not reached exactly when every node is behind; missing exactly when there are nodes and all lack the start |
| HeaderVerdict.PartialIsExact | bin/rayls-db-inspect/src/report/mod.rs:278-316 | partial exactly when nodes agree, all that have the start are linked and nothing is spoiled, but some node is behind or lacks the start, though not all are or do, or some committee is not known |
| HeaderVerdict.FiledVerdictIsExact | bin/rayls-db-inspect/src/report/header.rs:465-512 | where the rows visited are filed under their numbers, agreement at the start row alone takes the place of agreement at every number |
| HeaderVerdict.MisfiledRowIsOk | bin/rayls-db-inspect/src/report/header.rs:528-592 | a header that starts a chain, filed under any other number, is reported good over every range |
| HeaderVerdict.GoodVerdictOneChain | bin/rayls-db-inspect/src/report/header.rs:465-512 | under a good verdict two nodes hold the same chain over the whole range exactly when their start rows carry the same number |
| EpochCheck.CheckRecord | bin/rayls-db-inspect/src/report/epoch.rs:717-748 | the findings at an epoch with a record are those of its certificate, index, link and committee handoff |
| EpochCheck.WalkRecords | bin/rayls-db-inspect/src/report/epoch.rs:687-761 | the forward loop finds, epoch by epoch, what holds against the record or pending record before it, a gap resetting it |
| EpochCheck.CheckNode | bin/rayls-db-inspect/src/report/epoch.rs:629-770 | one node's view: the range checked, its findings, and good exactly when nothing was found, nothing is pending and something was checked |
| EpochCheck.RangeMeans | bin/rayls-db-inspect/src/report/epoch.rs:648-683 | the epochs checked are those from the first asked for, or held, up to the last asked for and held, whichever is lower |
| EpochCheck.NodeOkIff | bin/rayls-db-inspect/src/report/epoch.rs:687-769 | a node is good exactly when it has no pending rows, the range is not empty and every epoch of it has a record that is certified or an unsigned epoch 0, correctly indexed, and follows its predecessor in digest and committee when that is held |
| EpochCheck.DefaultOkIff | bin/rayls-db-inspect/src/report/epoch.rs:648-683 | without arguments, exactly when nothing is pending, there is a record, and every epoch between two records has a good one |
| EpochVerdict.FindingsAreFlaws | bin/rayls-db-inspect/src/report/epoch.rs:687-761 | the findings of a node are exactly what is wrong in its range: absent, badly certified, uncertified or misindexed records, and links and committees that do not follow the record, or pending record, before |
| EpochVerdict.CheckedIsCount | bin/rayls-db-inspect/src/report/epoch.rs:714-717 | the number of epochs checked is that of the records in the range |
| EpochVerdict.CodesAreExact | bin/rayls-db-inspect/src/report/epoch.rs:801-812 | every verdict over the nodes: divergent, empty, broken, partial and good each have one condition on pending rows, checked records, flaws and nodes without records |
| EpochCheck.SameEndSameChain | bin/rayls-db-inspect/src/report/epoch.rs:600-609 | two good chains that agree at their last epoch agree at every epoch below |
| EpochCheck.FindDivergence | bin/rayls-db-inspect/src/report/epoch.rs:773-774 | collecting digests per epoch finds a divergence exactly when two nodes were checked at an epoch where their records differ |
| EpochCheck.Report | bin/rayls-db-inspect/src/report/epoch.rs:620-832 | an inverted explicit range is an error exactly once a node has epochs; otherwise the report carries every node's view and the verdict's code |
| EpochCheck.VerdictIsExact | bin/rayls-db-inspect/src/report/epoch.rs:801-812 | the verdict is good exactly when no two nodes differ at an epoch, every node is good or has nothing due, and at least one is good |
| EpochCheck.GoodVerdictToleratesEmpty | bin/rayls-db-inspect/src/report/epoch.rs:801-812 | a node without records that has closed no epoch is reported not good and never spoils a good verdict |
| CertificateFetcher.WrittenRounds | crates/consensus/primary/src/certificate_fetcher.rs:389-407 | the skip-rounds have an entry for every committee member and hold exactly its stored rounds |
| CertificateFetcher.ContiguousPrefix | crates/consensus/primary/src/certificate_fetcher.rs:656-667 | the loop finds the end of the unbroken stretch of rounds above the garbage-collection round, and that round itself when an older one comes first |
| CertificateFetcher.TightenLowerBound | crates/consensus/primary/src/certificate_fetcher.rs:648-672 | the bound is within every authority's unbroken stretch and at the end of one of them |
| CertificateFetcher.TightenedIsSame | crates/consensus/primary/src/certificate_fetcher.rs:596-605 | raising the bound up to the tightened one, with the skip-rounds pruned, asks for the same certificates |
| CertificateFetcher.TightenedIsLargest | crates/consensus/primary/src/certificate_fetcher.rs:645-672 | with rounds above the garbage-collection round only, the bounds that ask for the same certificates are exactly those up to the tightened one |
| CertificateFetcher.LargestIff | crates/consensus/primary/src/certificate_fetcher.rs:645-672 | for all skip-rounds, no bound above the tightened one asks for the same certificates exactly when every stored round is above the garbage-collection round or some authority lacks the round next to it |
| CertificateFetcher.FetchedBoundIsLargest | crates/consensus/primary/src/certificate_fetcher.rs:389-407 | for the rounds the fetcher reads, which start above the garbage-collection round, the tightened bound is the largest that asks for the same certificates |
| CertificateFetcher.ReadIff | crates/consensus/primary/src/network/message.rs:308-360 | the peer reads a request exactly when no authority it keeps is sent with more rounds than allowed, rounds at or below the bound counting as one |
| CertificateFetcher.RequestRoundTrips | crates/consensus/primary/src/network/message.rs:308-402 | whenever a request is read, the bound is the one sent and the skip-rounds, for the authorities kept and no others, ask for the same certificates and are those sent when pruned |
| CertificateFetcher.PeerIsAskedForTheMissing | crates/consensus/primary/src/certificate_fetcher.rs:587-614 | from store to peer: the request is read exactly when no authority has more rounds stored above the bound than allowed, and then asks for exactly the certificates of the committee above the garbage-collection round that are not stored |
| KadStore.Store.constructor | crates/consensus/network/src/kad.rs:189-212 | a new store counts what the database holds, and nothing when it cannot be read |
| KadStore.Store.PutRecord | crates/consensus/network/src/kad.rs:263-298 | storing a record changes table and counter, and answers, as the specification says, failing reads and writes included |
| KadStore.Store.RemoveRecord | crates/consensus/network/src/kad.rs:300-320 | removing changes table and counter only for a record that was there and was removed |
| KadStore.Store.AddProviderRecord | crates/consensus/network/src/kad.rs:330-376 | adding a provider changes list, table and counter, and answers, as the specification says |
| KadStore.Store.RemoveProviderRecord | crates/consensus/network/src/kad.rs:398-428 | removing a provider drops its entries, and the key with its count once the list is empty |
| KadStore.ReplaceListed | crates/consensus/network/src/kad.rs:345-351 | the in-place loop replaces the peer's entries and reports whether there was one |
| KadStore.AddProviderKeeps | crates/consensus/network/src/kad.rs:330-376 | adding a provider keeps counter and lists right exactly unless the read of a key that is there fails and the write succeeds |
| KadStore.RecordsCountedOverRuns | crates/consensus/network/src/kad.rs:263-320 | over every run, whatever reads and writes fail, the record counter is the table's key count within its cap, and the other store type is untouched |
| KadStore.CounterDrift | crates/consensus/network/src/kad.rs:330-428 | over every run, whatever fails, the provider counter is ahead of the table by exactly the number of unreadable keys counted again, so it is right exactly when there was none, and every list is non-empty, bounded and free of duplicates |
| KadStore.ProvidersCountedOverRuns | crates/consensus/network/src/kad.rs:330-428 | over every run whose provider additions can read, the provider counter is the table's key count within its cap and every list is non-empty, bounded and free of duplicates |
| KadStore.CapHoldsIffFromBelow | crates/consensus/network/src/kad.rs:330-333 | the cap on provided keys holds over every run, whatever fails, exactly when the counter starts within it |
| KadStore.AboveCapGrows | crates/consensus/network/src/kad.rs:330-333 | a store counted above the cap takes new keys without end |
| KadStore.FullStoreIsFrozen | crates/consensus/network/src/kad.rs:330-333 | a store at the cap keeps its provider table, refreshes included, over every run without a removal |
| KadStore.TablesAreApart | crates/consensus/network/src/kad.rs:263-428 | operations on records leave provider table and counter alone over any run, and the other way round |
| KadStore.AddedProviderIsListed | crates/consensus/network/src/kad.rs:330-376 | exactly when a provider is taken and with which error it is refused; one that is taken is the one entry of its peer and no other entry changes, except that an unreadable list is lost |
| KadStore.EntriesAreLastTouches | crates/consensus/network/src/kad.rs:330-428 | after every run a key lists exactly the providers that the last decisive operation on their peer took, and those from before the run that nothing touched |
| KadStore.DroppedProviderIsGone | crates/consensus/network/src/kad.rs:398-428 | a removed provider is gone and the key's other providers stay |
| KadStore.RemovedRecordIsGone | crates/consensus/network/src/kad.rs:300-320 | a removed record is gone, the others stay, and putting it back restores store and counter |
| KadStore.LookupIsLastWrite | crates/consensus/network/src/kad.rs:263-320 | after every run, refused puts and database failures included, a key reads back as the last put that fitted and found its key or room, or the last removal, that reached the database, and as before the run when there was none |
| ExecutionWait.RecentlyExecutedBlocks.PushLatest | crates/consensus/primary/src/recently_executed_blocks.rs:194-199 | a push drops the oldest block only when the window is full |
| ExecutionWait.ContainsHash | crates/consensus/primary/src/recently_executed_blocks.rs:250-252 | the search finds a hash exactly when a block of the window has it |
| ExecutionWait.BlockAtNumber | crates/consensus/primary/src/recently_executed_blocks.rs:260-262 | the search finds the first block of the number, or there is none |
| ExecutionWait.ConsensusBus.Execute | crates/consensus/primary/src/recently_executed_blocks.rs:194-199 | an executed block is pushed to the window, also while a reset is under way |
| ExecutionWait.ConsensusBus.BeginReset | crates/consensus/primary/src/consensus_bus.rs:346-349 | the first step of a reset reads the last block and leaves the window alone |
| ExecutionWait.ConsensusBus.FinishReset | crates/consensus/primary/src/consensus_bus.rs:350-353 | the second step replaces the window, at the same capacity, by the block that was read |
| ExecutionWait.ConsensusBus.ResetForEpoch | crates/consensus/primary/src/consensus_bus.rs:338-354 | a reset with nothing between its steps leaves a window of the same capacity holding the last block |
| ExecutionWait.WaitForExecution | crates/consensus/primary/src/consensus_bus.rs:855-913 | the wait passes empty views, then views short of the target, and decides on the view right after the first that reached it, naming the block at the target number when it forks; it stalls only if none did |
| ExecutionWait.WindowIsSuffix | crates/consensus/primary/src/recently_executed_blocks.rs:194-199 | over every run of executions and resets in which no block is executed between the two steps of a reset, the window is the last blocks executed, at least one and at most its capacity |
| ExecutionWait.SuffixIffQuiet | crates/consensus/primary/src/consensus_bus.rs:346-353 | the window stays the last blocks executed exactly when no block is executed between the two steps of a reset |
| ExecutionWait.LostBlocksFork | crates/consensus/primary/src/consensus_bus.rs:346-353 | after a reset and one more block, a wait for an executed block succeeds exactly when it is no later than the block the reset read or the window holds one block only: blocks executed between the steps are called forked |
| ExecutionWait.ReachedLasts | crates/consensus/primary/src/consensus_bus.rs:869-877 | a number once reached stays reached, across pushes and resets between two borrows |
| ExecutionWait.WaitIsExact | crates/consensus/primary/src/consensus_bus.rs:877-912 | once reached, a target is accepted exactly when it is older than the window or is the window's block at its number, and called forked exactly when another block is |
| ExecutionWait.WaitOverRun | crates/consensus/primary/src/consensus_bus.rs:855-913 | whatever is executed, and reset with no block in between, between its borrows, a wait accepts its target exactly when it has left the window or is the block the chain executes at its number |
| ExecutionWait.ForkIsMissed | crates/consensus/primary/src/consensus_bus.rs:894-912 | a concrete run whose window holds another block at the number of the target, and the wait accepts the target |
| ExecutionWait.DecidesIffNamed | crates/consensus/primary/src/consensus_bus.rs:894-912 | every run that executes a history decides a target within its numbers as the chain does exactly when the history executes the target or has its hash at no other number |
| ExecutionWait.UnseededResetForks | crates/consensus/primary/src/consensus_bus.rs:346-353 | resetting a window nothing was pushed to makes up a block, and a wait for genesis then reports a fork unless the hashes coincide |
| CivilDate.CivilFromDaysIsValid | bin/rayls-db-inspect/src/render.rs:954-968 | every day before or after 1970 converts to a valid date whose Gregorian day count is that day |
| CivilDate.CivilFromDaysInverts | bin/rayls-db-inspect/src/render.rs:954-968 | every valid date is the conversion of its day count |
| CivilDate.ConsecutiveDays | bin/rayls-db-inspect/src/render.rs:954-968 | consecutive days convert to successive calendar dates |
| CivilDate.CivilFromDaysIsCalendar | bin/rayls-db-inspect/src/render.rs:954-968 | the conversion is the calendar counted one day at a time from 1970-01-01 |
| CivilDate.UtcIsExact | bin/rayls-db-inspect/src/render.rs:954-968 | the rendered date is the calendar date of its day, and date and time of day give back the second |

## Left out

- Metrics, logging, progress lines, command-line parsing, tables and JSON views: no law to prove.
- Networking, codecs, hashing, BLS, the databases and EVM execution: inputs or predicates here.
- The rest of the consensus (vote aggregation, proposer, Bullshark ordering, synchronizer): only what
  the components above rely on is modelled, as the outcome of a step.
- `propose_header`'s vote collection and request retries: a proposal task's step that certifies or fails.
- Committee-key waiting in state-sync: one outcome of a fetch attempt.
- QuorumWaiter.VerifyBatch: the committee's voting power is taken to fit the u64 it is summed in; the
  single-validator development build is not modelled.
- BoundedWalker.BoundedHybridWalker.CountEpoch: rows that fail to decode, and keys at the u64 limit, are not modelled.
- WalkCoverage.WalkGrounds: for commits made while a walk waits for a fetch the condition is sufficient
  only, that none takes the row of an ancestor of the walk's start; for commits between walks it is exact.
- WalkLimits.CoveredGroundsIff: stated for walks during which nothing is committed.
- Participation.TallyEpoch: the assembly of the report's rows, and the lookup of the epoch's boundary round, are not modelled; the boundary is an input.
- Participation.CountHeaders: certificates per header, batches and signer counts of the report are not modelled.
- CivilDate.UtcIsExact: the padding of the rendered text is not modelled.
- Replay.HeaderRoundTrips: hashes are numbers without a 256-bit limit, under which exclusive or is closed.
- ReplayRun.Archive.RunReplay: the bounded channel between producer and consumer is a sequence of windows, since neither reads what the other writes; rewards, roots, anchors, persistence and the committee's installation are part of a flush's success or of its failure before or after its output is finished.
- HeaderCheck.CheckNode: a read that fails makes the whole node unreadable; which read failed is not modelled.
- EpochCheck.CheckNode: the per-issue lists are one list of findings; the verbose record list is not modelled.
- CertificateFetcher.RequestRoundTrips: the limits on a bitmap's bytes and containers, and rounds at the u32 limit, are not modelled; the limit on its rounds is.
- KadStore.Store.AddProviderRecord: record and provider expiry are opaque, and keys stand for their hashes.
- ExecutionWait.WaitForExecution: a stalled and a closed wait end alike.
- `calculate_backoff`, percentiles, address parsing and the batch fetcher's retries: easy or finite claims only.
