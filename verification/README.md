# Payy node: a Dafny model

This project models the Rust node: the Doomslug consensus bookkeeping, block validation and
the note tree, crash recovery, fast sync, the block cache, the block store with its listings and
indexes, the mempool, and the activity-link payload. Objects that the source updates in place are
classes whose methods are proved against specification functions; what the source promises is
then proved of those functions, for all inputs and over whole runs.

| files | subject |
|---|---|
| `Approvals`, `Stakes`, `Trackers`, `VoteRuns`, `ReadyTimes`, `Books`, `Readiness`, `Timer`, `Endorsing`, `Doomslug` | consensus bookkeeping |
| `NotesTrees`, `Validation`, `Refusals`, `Committing`, `ChainRuns`, `RecentRoots`, `Recovery`, `Lifetime`, `FastSync`, `CatchUp`, `Samples` | chain state |
| `BlockCache`, `CacheRuns` | cache of unconfirmed blocks |
| `Bytes`, `Keys`, `Sorted`, `Listing`, `Pagination`, `Paging`, `BlockStore`, `Indexes` | block store |
| `Mempool`, `MempoolRuns`, `Leasing`, `Queueing` | mempool |
| `Payload` | activity-link payload |
| `Wrappers`, `Collections` | what they share |

`dafny verify dfyconfig.toml` checks everything.

## What the model takes as given

- Proof verification is an arbitrary predicate, and the root hash an arbitrary function of the
  set of notes. Slots are the 160 low bits of a note, and the root computed ahead of an insert is
  defined from the root function as the tree code computes it: a taken slot keeps its note, and
  two new notes in one free slot trip an assertion. Five results ask more of the root function,
  that it tells apart the trees in question: `Recovery.LoadFinishesTheCommit`,
  `Recovery.RecoversExactly`, `Recovery.ChainsRecoverExactly`, `Lifetime.TwoRefusalsReset` and
  `Lifetime.SyncedThenInterrupted`.
- RocksDB is a map from byte strings, iterated in bytewise order; a write batch is atomic.
- A block hash is a number that the block carries. Where a result needs it to stand for one block
  or one height, the lemma says so.
- Each method that takes a lock is one step; time is a number passed in. The iteration order of
  hash maps and sets is left open.
- Twice a total stake fits in 128 bits, and the stake list has no repeated and no slashed
  entry: the source asserts the latter (`StakeListOk`).

## What came out

- Quorums hold, and more: two approvals of one height that pass at different moments prove
  that more than a third of the stake sent both (`VoteRuns.ConflictingQuorumsAreAccountable`). Over
  whole runs of blocks and approvals each tracked height behaves as a run of just its approvals
  since it was last forgotten (`Books.TrackedHeightsAreRuns`), so both hold of the Doomslug object
  (`Books.OneReadyAtEachHeight`, `Books.ConflictsAreAccountable`).
- The running threshold and the one on approval slots differ exactly where the latter waives a
  zero threshold (`ReadinessRules.RunningRuleRefinesSlotRule`).
- Before its first block an instance endorses height 1 of the default hash on a timeout, even
  with a later mark carried over (`Timer.TimeoutBeforeFirstBlock`). All its endorsements lie above
  that mark exactly when the mark is 0 or no timeout comes before the first block
  (`Timer.EndorsementsAboveTheMark`). Within one instance no height is ever endorsed twice
  (`Timer.NoEquivocation`), and it is known of each block exactly when it is endorsed
  (`Endorsing.BlockEndorsedExactly`).
- An approval keeps the instant from which it counts as ready while voters leave and come back, but
  not when the last one leaves: an only voter that repeats its approval starts it anew
  (`ReadyTimes.ReadySinceExactly`).
- The node's least delay is 2000 seconds and its greatest 6, so its delay is 6 seconds at every
  height (`Timer.NodeDelaysAreApart`).
- The window of 64 recent roots ends at the block under validation, which is not stored yet, so
  63 roots count (`RecentRoots.RecentMeansTheLast63`). At intake the window ends at the confirmed
  block, and 64 count: a transaction is accepted and refused in the next block exactly when it is
  good apart from being proved against the oldest of them, and that root is not among the later
  63 (`RecentRoots.IntakeExceedsExactly`, with an input in `RecentRoots.IntakeExceedsAtAnInput`).
- A crash between the two writes of a commit is recovered on loading exactly when the block has no
  leaves, or its predecessor is stored with the root of the tree. Otherwise loading panics if no
  predecessor is stored, as at the first block or after a fast sync, and else starts from genesis
  (`Recovery.RecoversExactly`, `Recovery.ChainsRecoverExactly`, `Lifetime.SyncedThenInterrupted`). A
  node that stopped between commits loads as it was exactly when its tree has the root of its top
  block (`Recovery.LoadChangesNothingExactly`), which fast sync can undo.
- A block can be valid and yet share slots with notes in the tree. It is stored, and refused by the
  tree. Where none of its notes finds its slot free, its header carries the root of the tree as it
  is, and loading takes it as applied (`Recovery.LoadFinishesTheCommit`, with an input in
  `Recovery.RefusedButLoaded`). Each of its notes can then be stored a second time, whether or not
  its own slot is free, and exactly the notes of refused blocks can
  (`Lifetime.NotesAreStoredAgainExactly`, with an input in `Lifetime.StoredTwice`). After two
  refusals in a row loading starts from genesis exactly when both blocks had notes that would
  have fitted (`Lifetime.TwoRefusalsReset`, with an input in `Lifetime.TwoRefusalsAtAnInput`).
- All the same, over any life of a node without bad blocks no note is in two places of the blocks
  that the tree took (`Lifetime.NotesOverALife`). All of those blocks stay stored exactly as long as
  no commit puts another block at the height of one (`Lifetime.StaysStoredExactly`), which becomes
  possible when a fast chunk for an older block takes the node back
  (`Lifetime.OldBlocksAreAcceptable`).
- Validation panics on a block that is good so far when two of its leaves meet in one free slot
  (`Validation.ValidationPanicsExactly`). Catching up ends on such a block, which stays cached
  (`CatchUp.SharedSlotPanics`).
- A fast chunk that would be accepted but for the null element among what is to be inserted panics
  in the insert, before anything has changed (`FastSync.SyncWorker.HandleSnapshotChunkFast`, with
  an input in `FastSync.NullChunkPanics`).
- Caching another block for a cached height leaves a block that no confirm drops
  (`CacheRuns.OrphanExactly`, `CacheRuns.OrphansOutliveConfirms`), and inserting a block twice in a
  full cache evicts the top one (`CacheRuns.ReinsertionLosesTheTop`).
- Leasing a key without its transaction brings it into the pool when the lease ends. The next
  batch panics on it exactly when it is not full before it gets there
  (`Leasing.UnknownLeasesPoisonThePool`, `Leasing.ScanPanicsExactly`).
- Storing another block at a stored height leaves a stale hash entry
  (`Indexes.PutAgreesExactly`).
- A payload survives exactly when `psi` is present just for version 0
  (`Payloads.RoundTripsExactly`).

Where comments and code differ the model follows the code. The comment on the threshold mode
speaks of at least two thirds of the stake (`pkg/doomslug/src/doomslug.rs:30`); the code asks for
strictly more than two thirds rounded down. The comment on the greatest production delay says
milliseconds (`pkg/node/src/constants.rs:6`); the code reads seconds
(`pkg/node/src/node.rs:170`).

## Model

| member | source | states |
|---|---|---|
| Trackers.SumStakes | pkg/doomslug/src/doomslug.rs:144-151 | both totals are the sums over the stake map, and they fit |
| Trackers.Tracker.ProcessApproval | pkg/doomslug/src/doomslug.rs:175-200 | an account is counted once; the running counters stay the stake sums of the witnesses; the verdict is the threshold rule on them |
| Trackers.Tracker.WithdrawApproval | pkg/doomslug/src/doomslug.rs:205-217 | the account is no witness any more, the counters stay the sums, and no subtraction goes below zero |
| Trackers.Tracker.GetBlockProductionReadiness | pkg/doomslug/src/doomslug.rs:228-241 | ready exactly when the witnesses pass, since the first moment the threshold was found passed; the doubled totals do not overflow |
| Trackers.TrackersAtHeight.ProcessApproval | pkg/doomslug/src/doomslug.rs:275-323 | the former approval is withdrawn, an emptied tracker dropped, the new approval counted; the verdict is that of its tracker, or not ready for an account without stake |
| Trackers.HeightState.ProcessedVotes | pkg/doomslug/src/doomslug.rs:275-323 | processing an approval moves that account's one vote, or removes it when the account has no stake, and touches no other vote |
| Trackers.HeightState.TrackersRecompute | pkg/doomslug/src/doomslug.rs:252-323 | there is a tracker exactly for each approval voted for, so none is empty, and its witnesses are exactly its voters |
| Trackers.TrackersAtHeight.CountersRecompute | pkg/doomslug/src/doomslug.rs:175-217 | both approved-stake counters of every tracker are the stake of its present voters |
| VoteRuns.RunIsLastVotes | pkg/doomslug/src/doomslug.rs:275-323 | after any sequence of approvals, with stake lists that may change, the votes are each account's last approval |
| VoteRuns.WitnessesAreLastVoters | pkg/doomslug/src/doomslug.rs:275-323 | an account is a witness of an approval exactly when that was its last vote |
| Stakes.QuorumIntersection | pkg/doomslug/src/doomslug.rs:228-235 | two sets over the floor-division threshold share strictly more than a third of the stake |
| VoteRuns.AtMostOneReady | pkg/doomslug/src/doomslug.rs:228-323 | with fixed stakes at most one approval of a height is over the threshold at any moment of any run |
| VoteRuns.ConflictingQuorumsAreAccountable | pkg/doomslug/src/doomslug.rs:228-323 | two approvals that pass at different moments: accounts with more than a third of the stake sent both |
| VoteRuns.HonestRunsNeverConflict | pkg/doomslug/src/doomslug.rs:228-323 | where no account sends two approvals for the height, one approval at most ever passes |
| ReadyTimes.ReadySinceExactly | pkg/doomslug/src/doomslug.rs:228-241 | over any run an approval is ready since the instant of the first call after which it was over the threshold, counted from when its present tracker was opened; neither later approvals nor withdrawals reset it, unless the last voter leaves |
| ReadyTimes.FirstWitnessStays | pkg/doomslug/src/doomslug.rs:175-189 | a tracker keeps the first approval of each account |
| ReadyTimes.WitnessesAreLastApprovals | pkg/doomslug/src/doomslug.rs:275-323 | over any run what a tracker holds of a witness is its last approval, signature and all |
| Books.TrackedHeightsAreRuns | pkg/doomslug/src/doomslug.rs:609-679 | over any run of blocks and approvals a height is tracked exactly when approvals of it were taken since it was last forgotten, and its trackers are those of a run of just these |
| Books.OneReadyAtEachHeight | pkg/doomslug/src/doomslug.rs:609-679 | so at any moment of such a run one approval of each height at most is over the threshold |
| Books.ConflictsAreAccountable | pkg/doomslug/src/doomslug.rs:609-679 | two approvals of a height that pass at two moments, the height forgotten in between or not: accounts with more than a third of the stake sent both |
| Books.MarkIsGreatestReady | pkg/doomslug/src/doomslug.rs:403-405 | the largest height crossing the threshold is the greatest at which any approval was ever over it, or 0 |
| Books.TargetIsGreatestTaken | pkg/doomslug/src/doomslug.rs:632-665 | the largest approval target is the greatest height of an approval that was inside the horizon when it came, or 0 |
| Stakes.PassesMonotone | pkg/doomslug/src/doomslug.rs:228-235 | more witnesses never lose readiness |
| ReadinessRules.SlotSums | pkg/doomslug/src/doomslug.rs:550-578 | the sums over approval slots are the sums over the stake map |
| ReadinessRules.StakesOfExactly | pkg/doomslug/src/doomslug.rs:296-309 | the stake map has an account exactly when it has an unslashed entry, with the stake of the last one |
| ReadinessRules.FullSizeExactly | pkg/doomslug/src/doomslug.rs:309-311 | the assertion on the size of the map holds exactly when no entry is slashed and no account has two |
| ReadinessRules.ApprovedIsTotalOfCounting | pkg/doomslug/src/doomslug.rs:550-578 | for any list of slots, slashed ones among them or not, the approved stake is that of the unslashed slots that approve |
| ReadinessRules.RunningRuleRefinesSlotRule | pkg/doomslug/src/doomslug.rs:228-241 | tracker readiness is the slot rule less exactly the waived zero thresholds |
| ReadinessRules.RulesAgreeOnRealStakes | pkg/doomslug/src/doomslug.rs:550-578 | the two rules agree when this epoch's total is at least 2 and the next one's is not 1 |
| ReadinessRules.RulesDifferOnStakeOne | pkg/doomslug/src/doomslug.rs:550-578 | a stake list on which they differ |
| Timer.DelayAtLeast | pkg/doomslug/src/doomslug.rs:130-136 | the delay is at least a value at every height exactly when its minimum and its maximum are |
| Endorsing.DelayGrows | pkg/doomslug/src/doomslug.rs:130-136 | the delay is the minimum up to two heights after the final one, then grows by the step with each, up to the maximum |
| Timer.LoopShape | pkg/doomslug/src/doomslug.rs:457-531 | one optional endorsement, then skips for successive targets; the timer advances by the delays of exactly the heights stepped; the loop ends caught up or out of turns |
| Timer.BatchRises | pkg/doomslug/src/doomslug.rs:457-531 | targets of a batch rise, an endorsement comes first and lies above all sent before, the rest are skips over the tip |
| Timer.EndorsementsRise | pkg/doomslug/src/doomslug.rs:457-531 | from any state after a block, over any run, every endorsement lies above the starting mark and every target sent before it |
| Timer.NoEquivocation | pkg/doomslug/src/doomslug.rs:356-388 | the same from start-up, with or without blocks |
| Timer.EndorsedOnce | pkg/doomslug/src/doomslug.rs:457-531 | no target height is endorsed at two places of a run |
| Timer.TimeoutBeforeFirstBlock | pkg/doomslug/src/doomslug.rs:356-388 | in every run with a timeout before the first block the first message endorses height 1 under the default hash, above the carried mark only if that is 0 |
| Timer.StartUp | pkg/doomslug/src/doomslug.rs:356-388 | every run from start-up waits, until the first block comes and all endorsements lie above the mark, or the timer runs out first |
| Timer.EndorsementsAboveTheMark | pkg/doomslug/src/doomslug.rs:457-531 | over every run from start-up all endorsements lie above the carried mark exactly when it is 0 or no timeout comes before the first block |
| Timer.AssertionsHold | pkg/doomslug/src/doomslug.rs:469-513 | neither debug assertion of one call can fail when the delays are apart and time does not go back |
| Timer.RunsKeepAssertions | pkg/doomslug/src/doomslug.rs:457-617 | in any run on such a clock all debug assertions hold exactly when each block is higher than the one before, or that one is at height 0 |
| Timer.NodeDelaysAreApart | pkg/node/src/node.rs:169-180 | the node's own delays are apart, and its delay is the greatest, 6 seconds, at every height |
| Timer.RepeatedCallsCatchUp | pkg/doomslug/src/doomslug.rs:457-531 | with positive delays repeated calls catch up with any instant |
| Endorsing.TickExactly | pkg/doomslug/src/doomslug.rs:457-531 | one call in terms of the fields: when the tip is endorsed, first of all; what becomes of the pending flag and its delay; for just which heights skips go out; where the timer and the mark end |
| Endorsing.AssertionsExactly | pkg/doomslug/src/doomslug.rs:469-513 | exactly when both debug assertions of a call hold, for any delays and any clock |
| Endorsing.BlockEndorsedExactly | pkg/doomslug/src/doomslug.rs:457-617 | over any run from start-up: a block is endorsed before the next one exactly when nothing was sent for a height above it before it came, and a tick comes once the endorsement delay is over, with no earlier tick after the timer ran out; nothing else is endorsed meanwhile |
| Endorsing.ClockedBlocksAreEndorsed | pkg/doomslug/src/doomslug.rs:457-617 | with delays apart and a clock that never goes back the timer never runs out first, so that the first two suffice |
| Doomslug.Doomslug.constructor | pkg/doomslug/src/doomslug.rs:356-388 | the initial timer, and the empty book with tip and marks 0 |
| Doomslug.Doomslug.ProcessTimer | pkg/doomslug/src/doomslug.rs:457-531 | the new state and the messages are those of the timer specification; no tracker changes |
| Doomslug.Doomslug.OnBlock | pkg/doomslug/src/doomslug.rs:609-630 | timer and book are those of the specification: trackers inside the retained heights stay untouched, all others go; whether the debug assertion holds |
| Doomslug.Doomslug.OnApproval | pkg/doomslug/src/doomslug.rs:632-679 | the book is that of the specification: outside the horizon nothing changes; inside, exactly one height's trackers process the approval, and the largest heights seen and crossed follow |
| NotesTrees.RootWithIsRootAfter | pkg/smirk/src/tree/tree_repr.rs:30-110 | for extra elements the tree accepts, the root computed beforehand is the root after inserting |
| NotesTrees.RootWithInTwoSteps | pkg/smirk/src/tree/tree_repr.rs:30-110 | inserting an accepted part first does not change the root computed with the rest, even where slots collide |
| NotesTrees.Batch.Insert | pkg/smirk/src/batch/mod.rs:84-108 | refused exactly when the slot is taken in the batch |
| NotesTrees.NotesTree.InsertBatch | pkg/smirk/src/tree/batch.rs:69-88 | all or nothing; refused exactly when some slot is taken in the tree; otherwise a panic exactly when the null element is in the batch |
| Validation.TxnPassesExactly | pkg/node/src/utxo.rs:21-88 | a transaction passes exactly when its proof holds, its root is recent, zero or a prover's, its leaves are below the modulus, and its non-zero leaves are not in the tree |
| Validation.RefusalsAreJustified | pkg/node/src/utxo.rs:21-88 | each error names a real cause: the spent note is an input in the tree, the existing one an output, the root is outside the window |
| Refusals.TxnRefusedExactly | pkg/node/src/utxo.rs:21-88 | the first reason counts: the proof, else the root, else the first leaf that is too large or known, inputs before outputs |
| Validation.BlockPassesExactly | pkg/node/src/block.rs:137-200 | a block passes exactly when its transactions are admissible, its non-zero leaves are pairwise distinct and new, and it carries the root with them |
| Validation.ValidationPanicsExactly | pkg/smirk/src/tree/tree_repr.rs:46-110 | validating panics exactly on a block with admissible transactions and distinct, new leaves of which two share a slot that is free in the tree |
| Refusals.WrongRootExactly | pkg/node/src/block.rs:186-198 | a block is refused for its root exactly when all else is in order and the root with its leaves is not the header's; which of the two the error gives as got and as expected |
| Refusals.BlockRefusedExactly | pkg/node/src/block.rs:137-200 | every other refusal is of the first transaction that does not pass: for a leaf that occurred before in the block, naming both transactions, or else for the reason it is refused by itself |
| Validation.Validate | pkg/node/src/block.rs:137-200 | the loops yield the specified result, first error first |
| Committing.BatchFrom | pkg/smirk/src/batch/mod.rs:146-160 | a batch of all elements exactly when their slots differ pairwise |
| Committing.ApplyBlockToTree | pkg/node/src/node/block.rs:42-74 | panic, collision or the whole batch, and the resulting tree, with and without ignoring collisions |
| Committing.NodeShared.CommitProposal | pkg/node/src/node/proposal.rs:14-75 | the store is written before the tree; a double spend panics before either |
| ChainRuns.CommitExactly | pkg/node/src/node/proposal.rs:14-75 | a leaf that is in the tree panics before either write, unless the block is bad; otherwise the store is written whatever the tree does, and the tree takes all leaves, or none where slots collide |
| ChainRuns.ValidatedBlocksCommit | pkg/node/src/node/block.rs:54-58 | committing a validated block never reaches the double-spend panic, fails exactly when slots collide, and otherwise leaves a tree with the header's root |
| ChainRuns.BadBlocksOnlyGrowTheTree | pkg/node/src/node/block.rs:60-72 | ignoring collisions never panics, and an accepted block leaves the tree with all its leaves |
| ChainRuns.EveryNoteIsUsedOnce | pkg/node/src/block.rs:143-198 | over any chain of validated and committed blocks every non-zero leaf occurs once, none was in the initial tree, and the tree is exactly the initial one and those leaves |
| ChainRuns.HeadersCarryTheRoot | pkg/node/src/block.rs:186-198 | each header root is the root of all leaves up to its block |
| ChainRuns.ReusedNotesAreRefused | pkg/node/src/utxo.rs:61-85 | a block with a leaf used anywhere before in the chain fails validation |
| RecentRoots.RecentMeansTheLast63 | pkg/node/src/utxo.rs:36-58 | from any ledger: a root is recent for the next block exactly when it is the root after one of the last 63 blocks, and at intake after one of the last 64; for a shorter run, the older blocks in the store count too |
| RecentRoots.RecentExactly | pkg/node/src/utxo.rs:36-58 | whatever is stored, below the height or above: a root is recent exactly when one of the 64 heights up to this one carries it |
| RecentRoots.CommittedRootsAreRecent | pkg/node/src/utxo.rs:36-58 | so every non-zero root a committed transaction was proved against is one of the 63, outside prover modes |
| RecentRoots.IntakeExceedsExactly | pkg/node/src/node/transaction.rs:101-107 | what passes in the next block passes at intake; exactly which transactions pass at intake only |
| RecentRoots.IntakeExceedsAtAnInput | pkg/node/src/node/transaction.rs:101-107 | a chain of 64 blocks and a transaction that passes at intake and not in the next block |
| Samples.FirstCommits | pkg/node/src/node/block.rs:42-74 | the ledger that the inputs start from is what committing a valid first block leads to |
| Recovery.LoadDbAndSmirk | pkg/node/src/node/load.rs:24-124 | the loaded block, store and tree, or the reset, error or panic |
| Recovery.LoadChangesNothingExactly | pkg/node/src/node/load.rs:60-68 | loading returns the top block and leaves any ledger as it is exactly when the tree has that block's root; without blocks, exactly when there is no note |
| Recovery.LoadIsIdentityOnChains | pkg/node/src/node/load.rs:60-68 | so on a chain from genesis that stopped between commits it changes nothing |
| Recovery.LoadRedoesTheCommit | pkg/node/src/node/load.rs:70-101 | where the header root is not the present root, on any ledger below the block: loading panics without a stored predecessor, redoes the commit, refusals included, if that one carries the root of the tree, and else starts over |
| Recovery.HeaderRoot | pkg/smirk/src/tree/tree_repr.rs:46-110 | a valid block's header carries the root with just its novel notes |
| Recovery.LoadFinishesTheCommit | pkg/node/src/node/load.rs:60-101 | for any valid block above the store, exactly when loading after an interrupted commit comes to what that commit would have, when it takes the block as applied, when it panics, and when it starts over |
| Recovery.RecoversExactly | pkg/node/src/node/load.rs:70-101 | for a block that fits the tree, on any ledger: an interrupted commit is recovered exactly when the block has no leaves or follows its predecessor by height and root; exactly when loading panics or starts over instead |
| Recovery.ChainsRecoverExactly | pkg/node/src/node/load.rs:70-101 | on a chain from genesis it is recovered exactly when it is not the first block, or has no leaves; else loading panics |
| Recovery.LoadReplaysExactly | pkg/node/src/node/load.rs:70-101 | every outcome of loading any top block, valid or not, bad or not, whose header does not carry the root of the tree: no predecessor, a predecessor with another root, a note that the tree has, a slot collision, another root at the end; of a bad block the notes that the tree has are left out |
| Recovery.RefusedButLoaded | pkg/node/src/node/load.rs:60-68 | a block that is valid, refused by the tree, stored, and taken as applied on loading, while its note is not in the tree and passes validation again |
| Lifetime.NotesOverALife | pkg/node/src/node/proposal.rs:62-73 | over any run of commits at whatever heights, interrupted commits, fast chunks and loads, the tree is what fast sync brought and the notes of the blocks it took, and no note is in two places of those |
| Lifetime.CommitKeepsAccount | pkg/node/src/node/proposal.rs:46-73 | each commit keeps that account, stores its block whether or not the tree takes it, and never panics |
| Lifetime.ReloadKeepsAccount | pkg/node/src/node/load.rs:24-124 | each load keeps it, whatever branch it takes |
| Lifetime.SyncKeepsAccount | pkg/node/src/sync.rs:376-418 | each fast chunk keeps it |
| Lifetime.OldBlocksAreAcceptable | pkg/node/src/sync.rs:376-430 | an empty chunk for a block without leaves is accepted exactly when the block carries the present root, at whatever height |
| Lifetime.StaysStoredExactly | pkg/node/src/node/proposal.rs:46-73 | after an event all applied blocks are still stored exactly when it put no other block in the place of one |
| Lifetime.StoredOverALife | pkg/node/src/node/proposal.rs:46-73 | so over a life without such an event all of them stay stored |
| Lifetime.StoredNotes | pkg/node/src/node/proposal.rs:62-73 | from the first start a note is in the tree exactly when fast sync brought it or a block that the tree took has it, and never both |
| Lifetime.NotesAreStoredAgainExactly | pkg/node/src/node/proposal.rs:67-73 | a later block of a note of a valid block is valid exactly when the tree refused that block; it is then stored beside it, and taken exactly when the note's slot is free |
| Lifetime.StoredTwice | pkg/node/src/node/proposal.rs:67-73 | a refused block whose two notes, the one with its slot free and the other not, are each in a second stored block |
| Lifetime.TwoRefusalsReset | pkg/node/src/node/load.rs:60-124 | after two refusals in a row loading starts from genesis exactly when both blocks have notes whose slot is free |
| Lifetime.TwoRefusalsAtAnInput | pkg/node/src/node/load.rs:60-124 | two such blocks |
| Lifetime.SyncedThenInterrupted | pkg/node/src/node/load.rs:70-82 | after a fast chunk whose enclosed block has no stored predecessor, an interrupted commit of that block makes loading panic exactly when the block adds a note |
| FastSync.SyncWorker.RebuildTree | pkg/node/src/sync.rs:376-424 | the tree becomes the set before the block exactly when the chunk is acceptable, and is untouched otherwise; exactly when the root check panics, and when the insert does |
| FastSync.SyncWorker.HandleSnapshotChunkFast | pkg/node/src/sync.rs:359-430 | all or nothing for tree and cache, whatever the order of the elements; exactly when it panics on the null element or late, and the height that is confirmed, with and without overflow checks |
| FastSync.WrappingEmptiesTheCache | pkg/node/src/sync.rs:419-426 | without overflow checks a chunk of height 0 confirms the greatest height, drops every lower block and does not cache its own |
| FastSync.NullChunkPanics | pkg/smirk/src/tree/raw_api.rs:14-25 | a chunk with the null element that passes all checks and panics in the insert |
| FastSync.SyncedBlocksValidate | pkg/node/src/sync.rs:376-424 | after an accepted chunk the block's leaves are new, its root check passes, and with distinct leaves it validates exactly when its transactions are admissible |
| FastSync.SyncedBlockIsNext | pkg/node/src/sync.rs:419-426 | the enclosed block is the next to commit exactly when the confirmed cache takes it: it has room, or a higher block gives way |
| FastSync.TightCachesHaveRoom | pkg/node/src/cache.rs:70-82 | a cache for two or more with every block indexed takes it |
| CatchUp.Ticker.Round | pkg/node/src/node/tick_worker.rs:23-41 | one round: nothing cached, a refused block dropped, a panic in validation with nothing changed, a block confirmed and committed, or the tree's refusal |
| CatchUp.RoundExactly | pkg/node/src/node/block.rs:12-40 | exactly which rounds drop the next block: it is not bad, and unsigned or refused by validation; exactly which panic on it, commit it, or store it without the tree taking it |
| CatchUp.Ticker.CommitPending | pkg/node/src/node/tick_worker.rs:22-41 | the loop always ends, with the specified ledger, cache and committed blocks |
| CatchUp.RunCommitsAChain | pkg/node/src/node/tick_worker.rs:22-41 | catching up commits blocks of successive heights, each checked on the state it meets; it ends with no next block, with one that passes and is stored but shares a slot, or with one on which validation panics, and never in the double-spend panic |
| CatchUp.CommittedArePassed | pkg/node/src/node/tick_worker.rs:22-41 | every block that the loop commits is bad, or signed and valid on the ledger it met |
| CatchUp.SharedSlotPanics | pkg/node/src/node/tick_worker.rs:22-41 | a cached block on which validation panics: the run ends there, with nothing changed |
| CatchUp.TakenIsAccepted | pkg/node/src/node/tick_worker.rs:22-41 | without bad heights the committed blocks extend an accepted chain, so all that holds of accepted chains holds of the node |
| CatchUp.SyncedNodesCommitTheBlock | pkg/node/src/sync.rs:419-430 | after an accepted fast chunk with a signed and admissible block the loop commits that block first exactly when the cache took it and its notes share no slot; else it commits nothing |
| BlockCaching.BlockCache.constructor | pkg/node/src/cache.rs:19-33 | the cache holds just the start block, confirmed |
| BlockCaching.BlockCache.Insert | pkg/node/src/cache.rs:47-82 | old and too high blocks are ignored, at capacity the top block gives way, for any state of the cache |
| BlockCaching.BlockCache.Confirm | pkg/node/src/cache.rs:86-103 | exactly the blocks indexed below the height go |
| BlockCaching.BlockCache.Remove | pkg/node/src/cache.rs:118-122 | the block and the index entry of its height go |
| BlockCaching.BlockCache.IsOutOfSync | pkg/node/src/cache.rs:125-151 | true exactly when some height above the confirmed one, up to the highest seen, is not cached |
| BlockCaching.BlockCache.GetNextCommitBlock | pkg/node/src/cache.rs:155-166 | the cached block of the next height, exactly when there is one |
| BlockCaching.Cache.InsertedIsValid | pkg/node/src/cache.rs:47-82 | inserting keeps index, bound and the confirmed block |
| BlockCaching.Cache.InsertedIsSound | pkg/node/src/cache.rs:64-82 | an insert keeps index and bound but in exactly one case: height 0 on a full cache with nothing indexed, so that there is nothing to evict |
| BlockCaching.Cache.ConfirmedIsSound | pkg/node/src/cache.rs:86-103 | confirming keeps index and bound, and the confirmed block is cached exactly when the height was |
| BlockCaching.Cache.NoGapCatchesUp | pkg/node/src/cache.rs:125-166 | without a gap, committing block by block reaches the highest height seen in exactly that many steps, never missing |
| BlockCaching.Cache.GapBlocks | pkg/node/src/cache.rs:125-166 | with a gap it misses |
| CacheRuns.RunsStayValid | pkg/node/src/cache.rs:47-122 | over any run of inserts, confirms of cached heights and removals the invariant holds and no height goes back |
| CacheRuns.MaxHeightIsHighestSeen | pkg/node/src/cache.rs:47-62 | over any run the highest height seen is the greatest of the starting one and of all blocks inserted that were not below the confirmed height of the moment, stored or turned away |
| CacheRuns.TurnedAwayMeansAGap | pkg/node/src/cache.rs:57-72 | a full cache that turns a block away has a gap from then on |
| CacheRuns.InsertStoresExactly | pkg/node/src/cache.rs:47-82 | an insert stores its block unless that is below the confirmed height, or above the top of a full cache, and then stores nothing |
| CacheRuns.FreshCacheKeepsTheLowest | pkg/node/src/cache.rs:19-82 | a fresh cache given blocks of distinct heights from its start on, in any order, and any blocks below, holds exactly the lowest of those heights, up to capacity, each with its block |
| CacheRuns.LowestIsUnique | pkg/node/src/cache.rs:64-78 | that set of heights is determined |
| CacheRuns.ReinsertionLosesTheTop | pkg/node/src/cache.rs:64-82 | inserting a cached block again loses nothing exactly when there is room or it is the top one |
| CacheRuns.OrphanExactly | pkg/node/src/cache.rs:76-81 | exactly which inserts leave a stored block without an index entry |
| CacheRuns.OrphansOutliveConfirms | pkg/node/src/cache.rs:86-103 | confirming drops exactly indexed blocks, so never such a block |
| Bytes.ZeroByteIsImmediateSuccessor | pkg/block-store/src/keys.rs:214-218 | nothing lies strictly between a key and the key with a zero byte after it |
| Bytes.BigEndianKeepsOrder | pkg/block-store/src/keys.rs:236-238 | big-endian numbers of one width are ordered bytewise as numbers |
| Keys.DecodesToItsPrefix | pkg/block-store/src/keys.rs:189-212 | decoding yields a key exactly on the byte strings that begin with its encoding |
| Keys.KeyRoundTrip | pkg/block-store/src/keys.rs:165-212 | decoding inverts encoding, and encodings are distinct |
| Keys.HeightOrder | pkg/block-store/src/keys.rs:222-247 | encoded heights keep their order |
| Keys.KeysOfAKindAreContiguous | pkg/block-store/src/keys.rs:142-187 | between two keys of a listed kind lie only keys of that kind, with heights between |
| Listing.Iterate | pkg/block-store/src/list.rs:41-73 | the bounded iterator's items in the requested direction |
| Listing.VisitedExact | pkg/block-store/src/list.rs:41-56 | the byte bounds admit exactly the keys of the kind with heights in range, in all interval forms, up to the largest height |
| Listing.ListIsExact | pkg/block-store/src/keys.rs:59-92 | a listing yields each stored key of its kind in range once, with its value, in the requested direction, and nothing else |
| Listing.PaginationIsExact | pkg/block-store/src/keys.rs:94-138 | both orders, all cursor forms: after a cursor the first items past it, before a cursor the last ones ahead of it, in the requested order |
| Listing.TxnScanIsExact | pkg/block-store/src/list.rs:207-222 | the bounds of the transaction scan admit exactly the transaction index |
| Pagination.Paginator.Next | pkg/primitives/src/pagination.rs:279-293 | yields the next item and keeps the cursor that of all items yielded |
| Pagination.Paginator.Collect | pkg/primitives/src/pagination.rs:257-267 | all items, with the cursor of the first and the last positioned one |
| Paging.AfterPage | pkg/primitives/src/pagination.rs:257-293 | a page is the front of what remains, and its `after` cursor drops exactly it |
| Paging.WalkShowsEverything | pkg/block-store/src/keys.rs:94-138 | following `after` ends, and the pages join to the full ordered listing without gap or repeat |
| Paging.WalkShowsTheRest | pkg/block-store/src/keys.rs:94-138 | the same from any cursor, each page within the limit |
| Paging.BeforeLeadsBack | pkg/primitives/src/pagination.rs:184-196 | a page's `before` cursor leads to the items just ahead of it |
| Paging.RecordedCursor | pkg/primitives/src/pagination.rs:279-293 | paginating stored results records the cursors of their heights |
| Paging.ListedWalkShowsEverything | pkg/block-store/src/keys.rs:94-138 | listing page after page with the cursors that the paginator records ends, and yields every stored item of the kind once, in the requested order |
| Paging.ListedWalkShowsTheRest | pkg/primitives/src/pagination.rs:257-293 | the same from any cursor, each page within the limit |
| BlockStore.Store.Create | pkg/block-store/src/lib.rs:79-90 | an empty store of the current version, with all indexes in agreement |
| BlockStore.Store.Set | pkg/block-store/src/lib.rs:101-133 | one batch: block, higher maximum, hash, transactions and non-empty marker; nothing else changes |
| BlockStore.Store.Get | pkg/block-store/src/lib.rs:142-149 | the decoded block found under the encoded height key, which no other key can shadow |
| BlockStore.Store.GetBlockHeightByHash | pkg/block-store/src/lib.rs:161-171 | the height found under the encoded hash key |
| BlockStore.Store.GetTxnByHash | pkg/block-store/src/lib.rs:181-190 | the transaction found under the encoded transaction key |
| BlockStore.Store.MigrateToV1 | pkg/block-store/src/migration.rs:31-59 | the entries of all stored blocks added over the old table, and the version set |
| BlockStore.Store.Migrate | pkg/block-store/src/migration.rs:16-29 | ends; migrates version 0, leaves version 1 alone, refuses others |
| Indexes.PutAgreesExactly | pkg/block-store/src/lib.rs:101-133 | storing a block keeps all indexes equal to what the blocks imply exactly when its height is new or holds this block |
| Indexes.HashLookupIsExact | pkg/block-store/src/lib.rs:161-171 | with agreeing indexes a hash yields a height exactly when the block stored there has that hash |
| Indexes.TxnLookupIsExact | pkg/block-store/src/lib.rs:181-190 | a transaction hash yields a transaction exactly when a stored block holds it |
| Indexes.HeightLookupsAreExact | pkg/block-store/src/lib.rs:151-159 | the recorded maximum is the greatest stored height, and the non-empty marker is there exactly for blocks with transactions |
| Indexes.AgreementOverRuns | pkg/block-store/src/lib.rs:101-140 | over any run that writes each height once the indexes agree and every block is there |
| Indexes.MigrationKeeps | pkg/block-store/src/migration.rs:31-59 | migration touches no primary record |
| Indexes.MigratedAgrees | pkg/block-store/src/migration.rs:31-59 | after migration all indexes agree, also where an earlier one stopped half-way |
| Indexes.AgreeingStoresCoincide | pkg/block-store/src/lib.rs:101-140 | the blocks determine every index entry |
| Indexes.MigrationMatchesSet | pkg/block-store/src/migration.rs:31-59 | whatever version 1 entries a store is stripped of, migrating restores that very store |
| Mempools.Mempool.Add | pkg/node/src/mempool.rs:72-95 | a known key changes nothing; a new one goes to the back of the pool |
| Mempools.Mempool.Commit | pkg/node/src/mempool.rs:98-124 | the keys dropped one by one, then the rest of the lease in some order at the front |
| Mempools.Mempool.LeaseTxns | pkg/node/src/mempool.rs:143-164 | the keys leave the pool and enter the lease, known or not |
| Mempools.Mempool.LeaseBatch | pkg/node/src/mempool.rs:168-210 | the batch, new pool and lease of the specified scan; when it panics |
| Queueing.AddsKeepOrder | pkg/node/src/mempool.rs:72-95 | over any run of adds, from any state: the pool is the old one and then the unknown keys in the order of their first arrival; each has the transaction of its first add, and what was known keeps its own |
| Queueing.OldestFirst | pkg/node/src/mempool.rs:168-210 | whatever was added, a batch of one takes the first key of the old pool, or else the first that arrived |
| MempoolRuns.CommitKeepsPartition | pkg/node/src/mempool.rs:98-140 | a commit keeps the partition exactly when no committed key is held by another lease |
| MempoolRuns.CommitRemovesExactly | pkg/node/src/mempool.rs:98-124 | exactly the committed keys go, from transactions, pool and lease; the pool keeps its order |
| Leasing.LeaseTxnsKeepsPartition | pkg/node/src/mempool.rs:143-164 | leasing keeps the partition exactly when each key is pooled or already in that lease |
| Leasing.LeaseTxnsMovesExactly | pkg/node/src/mempool.rs:143-164 | exactly the given keys move |
| Leasing.UnknownLeasesPoisonThePool | pkg/node/src/mempool.rs:155-180 | a leased key without transaction returns to the pool with the lease, and the next batch panics exactly when it is not full before that key |
| Leasing.ScanPanicsExactly | pkg/node/src/mempool.rs:174-181 | a batch panics exactly when it is not full before the first key without a transaction |
| Leasing.BatchIsGreedy | pkg/node/src/mempool.rs:168-210 | no panic; the batch keeps the pool's order, starts with its first key, has no two clashing keys and at most the limit; batch and new pool are the old pool; a short batch leaves only keys that clash with it |
| Queueing.BatchExactly | pkg/node/src/mempool.rs:168-210 | exactly which keys a batch takes and where it stops; what it set aside goes behind what it did not look at, in order |
| Queueing.PanicEmptiesThePool | pkg/node/src/mempool.rs:174-181 | a batch that panics has taken all it looked at out of the pool, the unknown key with it, and puts nothing back |
| Queueing.EmptyPoolChangesNothing | pkg/node/src/mempool.rs:168-210 | from an empty pool a batch takes nothing and enters no lease |
| Leasing.BatchKeepsPartition | pkg/node/src/mempool.rs:168-210 | exactly the batch moves to the lease |
| Leasing.StepKeepsPartitionExactly | pkg/node/src/mempool.rs:72-210 | each operation keeps the partition exactly under what its caller can check |
| Leasing.RunsKeepPartition | pkg/node/src/mempool.rs:72-210 | over any run of such steps the transactions are the disjoint union of pool and leases, and no batch panics |
| Payloads.Encode | pkg/zk-circuits/src/data.rs:321-345 | the encoded bytes |
| Payloads.Decode | pkg/zk-circuits/src/data.rs:275-319 | the decoded payload, or which panic |
| Payloads.DecodesExactly | pkg/zk-circuits/src/data.rs:275-319 | exactly which byte strings decode |
| Payloads.RoundTripsExactly | pkg/zk-circuits/src/data.rs:275-348 | decoding an encoded payload gives it back exactly when `psi` is present just for version 0, value zero included |
| Payloads.ReencodesExactly | pkg/zk-circuits/src/data.rs:275-348 | encoding a decoded byte string restores it exactly when its zero count is canonical |

## Left out

- Overflow of 64-bit heights in sums and of durations: heights and instants are unbounded numbers in all modules but the block store and fast sync's one subtraction.
- Doomslug's history, `status`, witness arrival times, tracing, and the chunk delay of `ready_to_produce_block`.
- Signatures and the leader: who may sign a block is an arbitrary predicate in `CatchUp`; elsewhere validation starts after that check.
- Other tasks running between the rounds of the commit loop, which releases its locks there: the loop is modelled as running alone.
- Wire and database value codecs: stored values are typed, so a value never fails to decode and RocksDB never fails.
- The recent roots carried by an error, and the metadata of tree entries.
- The inner nodes of the tree and its persistence: a set of notes and an arbitrary root function stand for them.
- `create_proposal`, the slow snapshot path, the sync protocol's messages, and what a tick does besides committing cached blocks.
- Waiting senders in the mempool, and `receive_proposal` leasing a block's transactions after fast sync: the two objects are modelled apart.
- The base58 layer around the payload, and what UTF-8 validity is: any predicate on byte strings.
- The byte vectors that key encoding pushes to: encodings are functions of the key.
- The lookups of mints and burns in the contract, which intake makes before it validates a transaction.
- The network clients, circuits, provers, contracts, user interfaces and HTTP layer.
- Listing.Iterate: the collected items stand for a lazy iterator, so what is read of the database after a caller stops early is not modelled.
- Lifetime.NotesOverALife: lives with bad blocks are not covered, since for those the source lets a note into the tree that is there already.
- Recovery.LoadDbAndSmirk: a reset empties the store and the tree; the renamed directories are not kept.
