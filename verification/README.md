# Fibre, proposals and inclusion: a Dafny model of celestia-app

This project models the parts of celestia-app whose correctness is hardest to see from the code, and
proves what they promise:

- **Row assignment and quorum.** How a Fibre blob's rows are dealt to validators by stake, how the download
  order is chosen, and when the signers of a blob are certain to hold enough rows to rebuild it.
- **Proposing and checking blocks.** What `Fill` keeps of a list of transactions, and why
  `ProcessProposal`, which runs different code, accepts exactly that.
- **Subtree roots.** The cursor walk that cuts a leaf range into aligned subtrees.
- **Downloading.** Commitments to extended rows, the verifier of row proofs, the reconstructor that shares
  one verifier between callers, the dispatcher with its workers and wake-up channel, and the two together.
- **Escrow, storage and buffers.** The client's escrow ledger, the server's storage limiter, the shard
  store's prune index, the shard file format, and the reference count of a blob's pooled buffers.
- **Squares.** The pooled namespaced Merkle tree against the plain wrapper, and share range proofs.

## How the model is built

Each file is one module. Sequential code that works by changing things is a method or a class, proved against
a specification function; the theorems are about those functions. Concurrent code is a state machine: `Step`
lists the atomic actions of the source (a critical section, one atomic operation, one channel operation, one
event on chain), `Enabled` and `Next` say when each can happen and what it does, and `After` is the state after
a sequence of steps. A theorem about `After` for all step sequences is a theorem about every interleaving of any
number of callers.

Libraries are parameters. The ante handler, message handlers, square builder, namespaced and binary Merkle
trees, hashes, field arithmetic and coefficient derivation are arbitrary functions collected in a record (`App`,
`Lib`, `Field`, `Nmt`, `Merkle`). Where a theorem needs a law of a library it says so in a named hypothesis:
`AnteFailureIsInert` (a failing ante handler leaves the store unchanged), `FieldLaws`, `HashesSized`,
`NmtComplete`, `MerkleComplete`, `IsCalendar` (`UniformIsCalendar` gives one). No hash is assumed to be injective:
the binding theorems say that rows agree, or that the proofs at hand exhibit a concrete collision or a forgery in a
tree library. Random draws are an arbitrary function or an arbitrary choice, clocks are steps, and integers are
unbounded.

## Where the code does less than its comments say

Each of these has a lemma that shows failing inputs or runs, named first, beside lemmas that say exactly when the
promise holds.

- The subtree walk never returns for `start >= end`, although its comment admits equality
  (`EmptyRangeNeverReturns`); for `start < end` it always returns (`CalculateSubTreeRootCoordinates`).
- Validators with enough stake can hold too few distinct rows once the dealing wraps around
  (`WrappedSetFallsShort`). A set of validators holds enough exactly when it covers `originalRows` positions,
  whatever the shuffle (`ReconstructsExactly`); with enough stake and no wrapping it does
  (`LivenessSetReconstructs`).
- The signature threshold is rounded down (`RoundingGap`). With 2/3 required and fewer than 1/3 faulty, honest
  signers reach 1/3 of the stake for every total exactly when the total is not 1 modulo 3
  (`TwoThirdsMinusOneThird`).
- `Fill` does not repeat two checks of `CheckTx` (`FillKeepsWhatIsRejected`). Its output passes `ProcessProposal`
  exactly when the kept transactions pass those two (`FillPassesExactlyWhenAdmissible`).
- With a positive `StartupGracePeriod` a Put can leave `ensureSeeded` unseeded, refill and admit after the period
  ends, and have the later seed hand out the held funds again (`GraceOvercommits`). Every interleaving is solvent
  exactly when the period is off and no promise of an earlier process is outstanding (`AlwaysSolventExactly`).
- Rows longer than `MaxRowSize` are marked as seen and not stored (`OversizedRowIsSeenNotStored`). The filled slots
  are the seen indices exactly when the accepted length is within the limit (`StoppedMeansStored`).
- A pooled tree refuses shares longer than `ShareSize` that the plain wrapper takes (`OversizedShareDiffers`). The
  two agree exactly when the plain wrapper takes no such share (`PooledMatchesFreshExactly`).
- From year 10000 on, prune keys no longer sort by time (`FiveDigitYearSortsEarly`). Timestamps before a given year
  sort by time exactly when that year is at most 10000 (`SortsExactly`).
- Putting a shard again under a longer retention does not postpone its removal (`EarlierRetentionWins`). A prune
  takes a shard exactly when the earliest prune time in the index for it has passed (`TakenExactlyWhenDue`).
- `RowProof` checks the number of rows and not their numbers (`RenumberedProofIsAccepted`). For distinct roots a row
  number is right exactly when it is the position its path carries (`NumbersHoldExactly`).

## Model

| member | source | states |
|---|---|---|
| SubtreeCoords.CalculateSubTreeRootCoordinates | pkg/inclusion/paths.go:43-108 | for start < end the six-cursor loop terminates and returns the greedy cover of the range |
| SubtreeCoords.IterateKeepsInvariant | pkg/inclusion/paths.go:79-107 | one iteration keeps the walk's invariant and either moves to a later uncovered leaf or climbs with a larger leaf cursor |
| SubtreeCoords.LastThatFits | pkg/inclusion/paths.go:81-90 | a node that fits while twice its size does not is the tallest that starts there and fits |
| SubtreeCoords.CannotClimb | pkg/inclusion/paths.go:91-97 | a node at an odd position or at the least depth is the tallest that starts there and fits |
| SubtreeCoords.EmptyRangeNeverReturns | pkg/inclusion/paths.go:38-84 | for end <= start no number of iterations reaches the return |
| SubtreeCoords.CoverTiles | pkg/inclusion/paths.go:38-108 | the cover tiles the range exactly and in order with aligned subtrees not above minDepth |
| SubtreeCoords.PiecesAreMaximal | pkg/inclusion/paths.go:75-107 | no allowed subtree that starts where a piece starts and fits the range is larger than the piece |
| SubtreeCoords.CoverIsFewest | pkg/inclusion/paths.go:43-108 | every other tiling of the range by allowed subtrees has at least as many pieces |
| SubtreeCoords.RisingCount | pkg/inclusion/paths.go:43-108 | from a multiple of 2^j the pieces' heights rise until the greatest height, which bounds their number |
| SubtreeCoords.FallingCount | pkg/inclusion/paths.go:43-108 | when less than 2^j leaves remain, at most j pieces remain |
| SubtreeCoords.CoverCount | pkg/inclusion/paths.go:43-108 | at most (end - start) / 2^h + 2h pieces, h being maxDepth - minDepth |
| RowAssignment.AssignedRowsIsLeast | fibre/validator/set.go:107-113 | the row count is the least that reaches minRows and the validator's share of stake over the liveness threshold, capped at originalRows |
| RowAssignment.ShuffleRows | fibre/validator/set.go:81-89 | the in-place swap loop computes the Fisher-Yates shuffle of 0..totalRows-1 for every sequence of draws |
| RowAssignment.ShuffledRowsIsPermutation | fibre/validator/set.go:81-89 | the shuffle is a permutation, whatever is drawn |
| RowAssignment.DealShards | fibre/validator/set.go:91-102 | every validator gets the stretch of the shuffled rows that begins at the sum of the earlier counts, taken modulo totalRows |
| RowAssignment.Assign | fibre/validator/set.go:65-105 | empty map when there are no validators, rows or minimum; otherwise each validator's dealt rows |
| RowAssignment.OwnRowsDiffer | fibre/validator/set.go:91-102 | no validator is dealt a row twice when originalRows <= totalRows |
| RowAssignment.DealingIsBalanced | fibre/validator/set.go:91-102 | of S rows dealt in all, every index is dealt between floor(S/totalRows) and ceil(S/totalRows) times |
| RowAssignment.PrefixDisjointIff | fibre/validator/set.go:91-102 | the first k validators hold pairwise disjoint rows if and only if their counts sum to at most totalRows |
| RowAssignment.Verify | fibre/validator/set.go:187-215 | accepts exactly the duplicate-free permutations of the validator's dealt rows; each error names a real fault |
| RowAssignment.DealtRowsAreNarrow | fibre/validator/set.go:198-202 | for up to 2^32 rows the 32-bit indices that Verify compares with are the dealt rows themselves |
| RowAssignment.PermutationIff | fibre/validator/set.go:193-213 | equal count, no duplicates and membership together mean being a permutation of the assigned rows |
| RowSelection.ShuffleByStake | fibre/validator/set.go:157-180 | the in-place loop computes the repeated choice by stake for every sequence of draws and touches nothing outside its group |
| RowSelection.ByStakeIsPermutation | fibre/validator/set.go:157-180 | the stake-weighted shuffle only permutes its group, whatever is drawn |
| RowSelection.PickByStake | fibre/validator/set.go:170-178 | the cumulative loop finds the entry the point stands for |
| RowSelection.PickIs | fibre/validator/set.go:167-178 | that entry is the one whose interval of the weight line holds the point |
| RowSelection.FindSplit | fibre/validator/set.go:132-146 | the split is the first index at which the raised stakes exceed the total |
| RowSelection.Select | fibre/validator/set.go:120-155 | nothing for no validators; otherwise the validators with their row counts, cut at the split and shuffled by stake on either side |
| RowSelection.GroupsStayTogether | fibre/validator/set.go:148-154 | each group of the result is a permutation of its validators, each still paired with its own row count |
| RowSelection.PrefixAgainstRaisedStake | fibre/validator/set.go:108-146 | rows dealt to a prefix against its raised stake, with one row of rounding per validator |
| RowSelection.SplitFits | fibre/validator/set.go:115-146 | the validators before the split are dealt at most totalRows rows under the stated bound on totalRows |
| RowSelection.BeforeSplitDisjoint | fibre/validator/set.go:115-119 | any two validators before the split hold disjoint rows under that bound |
| RowSelection.SelectedRowsArePositive | fibre/validator/set.go:120-155 | every selected validator is expected to serve at least one row |
| RowLiveness.HeldCount | fibre/validator/set.go:91-102 | whatever the shuffle, as many distinct rows are held as positions of the dealing are covered |
| RowLiveness.ReconstructsExactly | fibre/validator/set.go:48-113 | a set of validators holds originalRows distinct rows if and only if its stretches cover originalRows positions, which stakes and layout decide |
| RowLiveness.CoveredSize | fibre/validator/set.go:91-102 | validators whose stretches do not wrap cover as many positions as they were dealt rows |
| RowLiveness.RowsAgainstStake | fibre/validator/set.go:37-43 | the rows of any set of validators, against their stake over the liveness threshold |
| RowLiveness.LivenessSetReconstructs | fibre/validator/set.go:48-113 | validators that do not wrap and have the liveness fraction of the stake hold at least originalRows distinct rows |
| RowLiveness.WrappedSetFallsShort | fibre/validator/set.go:55-63 | six validators, eight rows: a set with half the stake that wraps holds three of the four rows needed, for every shuffle |
| SignatureSet.SignatureSet.constructor | fibre/validator/signature_set.go:29-39 | the threshold is the floor of the target fraction of the total power |
| SignatureSet.SignatureSet.Add | fibre/validator/signature_set.go:41-67 | an invalid signature changes nothing; a validator's power is added with its first valid signature only; reports whether the threshold is met |
| SignatureSet.SignatureSet.Signatures | fibre/validator/signature_set.go:69-98 | signatures in validator order with gaps for those that did not sign, and whether they suffice |
| SignatureSet.RunCountsSignersOnce | fibre/validator/signature_set.go:44-67 | after any series of Add calls the collected power is that of the distinct validators with a valid signature |
| SignatureSet.MarginExact | fibre/validator/signature_set.go:30-31 | every accepted power stays live without the faulty ones exactly when the threshold itself does |
| SignatureSet.TwoThirdsMinusOneThird | fibre/validator/signature_set.go:30-31 | the 2/3 threshold minus less than 1/3 faulty leaves 1/3 for every fault exactly when total % 3 != 1 |
| SignatureSet.RoundingGap | fibre/validator/signature_set.go:31-31 | total 4 is a concrete case in which rounding down breaks that |
| SignatureSet.SignedBlobIsReconstructable | fibre/validator/signature_set.go:30-67 | if the threshold minus the faulty power is live, the honest signers hold originalRows distinct rows exactly when their stretches cover as many positions, and always when none wraps |
| ProposalTypes.ExecuteTxMsgs | app/pff_execution.go:13-37 | messages take effect all together or not at all |
| ProposalTypes.RecognisersAgree | app/check_tx.go:163-192 | on transactions of valid shape the three ways of recognising a pay-for-fibre transaction agree |
| FilteredSquareBuilder.FilterByMaxBytes | app/filtered_square_builder.go:56-81 | keeps each transaction that still fits the remaining bytes |
| ProcessProposal.SeparatedClasses | app/filtered_square_builder.go:212-272 | separation keeps exactly the well-formed plain, blob and fibre transactions, all of them and in order, and pairs each blob transaction with its decoded form |
| FilteredSquareBuilder.FillNormal | app/filtered_square_builder.go:86-137 | the loop over plain transactions, compacting in place and reverting the builder, computes the stage's specification |
| FilteredSquareBuilder.FillBlobs | app/filtered_square_builder.go:139-183 | the same for blob transactions |
| FilteredSquareBuilder.ProcessFibreTxsForSquare | app/filtered_square_builder.go:287-371 | the same for fibre transactions, each on a branch of the store that is committed only if it settles |
| FilteredSquareBuilder.Fill | app/filtered_square_builder.go:53-194 | the kept list, the builder's contents and the store are those of the three stages in order |
| ProcessProposal.ProcessTxs | app/process_proposal.go:69-182 | the transaction loop rejects or returns the store and counters exactly as its specification |
| ProcessProposal.AcceptsExactly | app/process_proposal.go:69-182 | the loop accepts a list if and only if each transaction is well formed, the whole list is within the three message caps, and ante handlers and settlements succeed in order; it ends in their store |
| ProcessProposal.NormalStageAccepted | app/process_proposal.go:102-155 | what the plain stage keeps passes the loop, which ends with the stage's store and count |
| ProcessProposal.BlobStageAccepted | app/process_proposal.go:157-182 | what the blob stage keeps passes the loop, which ends with the stage's store and count |
| ProcessProposal.FibreStageAccepted | app/process_proposal.go:102-155 | what the fibre stage keeps passes the loop, which ends with the stage's store and count |
| ProcessProposal.FillPassesExactlyWhenAdmissible | app/process_proposal.go:69-182 | for any transactions, Fill's list passes the loop from the same store if and only if its plain transactions carry no PFB message and its blob transactions validate; then both end in the same store |
| ProcessProposal.FillKeepsWhatIsRejected | app/filtered_square_builder.go:86-137 | an application whose plain transactions carry a PFB message: Fill keeps one that CheckTx refuses, and the list is rejected |
| ProcessProposal.CheckedTxsAreAccepted | app/filtered_square_builder.go:53-194 | for transactions that passed CheckTx, Fill's list passes the loop and both end in the same store |
| ProcessProposal.NormalKeepsExactly | app/filtered_square_builder.go:94-137 | a plain transaction is kept exactly when the checker would accept it after those kept before it and the square has room |
| ProcessProposal.BlobsKeepExactly | app/filtered_square_builder.go:139-183 | the same for blob transactions |
| ProcessProposal.FibreKeepsExactly | app/filtered_square_builder.go:287-371 | the same for fibre transactions |
| ProcessProposal.FillKeepsInput | app/filtered_square_builder.go:53-194 | Fill returns only transactions it was given |
| ProcessProposal.FillFitsBlock | app/filtered_square_builder.go:56-81 | the returned list is within maxTxBytes |
| ProcessProposal.FillRebuildsSquare | app/filtered_square_builder.go:94-194 | building a square from the returned list admits every transaction and gives exactly the builder's contents after all reverts |
| MerklePath.RootFromProof | pkg/rsema1d/merkle/proof.go:55-79 | the loop folds a leaf hash with its siblings, or fails on a sibling of wrong size |
| MerklePath.PathIsComplete | pkg/rsema1d/merkle/proof.go:32-53 | the path of a leaf leads from its hash to the tree's root |
| MerklePath.PathIsBinding | pkg/rsema1d/merkle/proof.go:55-79 | two equally long paths from one position to one root start from the same leaf hash or exhibit a collision of the pair hash |
| RandomCombination.CombineAdds | pkg/rsema1d/rlc/compute.go:100-118 | the combination of a sum of rows is the sum of their combinations |
| RandomCombination.CombineScales | pkg/rsema1d/rlc/compute.go:100-118 | the combination of a scaled row is the scaled combination |
| RandomCombination.CombineCommutesWithExtend | pkg/rsema1d/verifier.go:113-134 | combining any original or parity row gives the extension of the originals' combinations at that index |
| RowVerifier.Verifier.SetRLC | pkg/rsema1d/verifier.go:112-134 | loads root and extended combinations and forgets cached coefficients; refuses a vector of wrong length and changes nothing |
| RowVerifier.Verifier.ValidateProofs | pkg/rsema1d/verifier.go:136-163 | accepts exactly non-empty batches with indices in range, equal row lengths of whole chunks and full-depth paths |
| RowVerifier.Verifier.RootFromProofs | pkg/rsema1d/merkle/proof.go:94-141 | returns the one root all proofs lead to, and fails exactly when a proof is malformed or disagrees |
| RowVerifier.Verifier.CoefficientsOf | pkg/rsema1d/verifier.go:209-223 | derives coefficients once and afterwards refuses another row root or row size |
| RowVerifier.Verifier.VerifyShared | pkg/rsema1d/verifier.go:95-207 | verdict and cache are those of checking the batch against the cached combinations |
| RowVerifier.Verifier.Verify | pkg/rsema1d/verifier.go:76-93 | verdict and cache are those of checking the batch against the given combinations |
| RowVerifier.HonestBatchIsAccepted | pkg/rsema1d/coder.go:69-103 | every non-empty batch of genuine original or parity rows is accepted against the commitment the encoder computed |
| RowVerifier.AcceptedRowsAgree | pkg/rsema1d/verifier.go:165-207 | two batches accepted against one commitment agree on every shared index, or exhibit a hash collision |
| RowVerifier.OnlyCommittedRowsAccepted | pkg/rsema1d/verifier.go:165-207 | against an honest commitment only the committed row is accepted at an index, or a hash collision is exhibited |
| RowVerifier.SharedAcceptanceIsFresh | pkg/rsema1d/verifier.go:95-110 | with cached coefficients checking changes nothing, and an accepted batch has the cached root and size and is accepted by a fresh verifier |
| Reconstructor.Reconstructor.Add | pkg/rsema1d/reconstructor.go:77-82 | a rejected batch marks nothing; an accepted one marks its indices and leaves exactly the novel proofs, in order, at the front of the array |
| Reconstructor.Reconstructor.AddVerified | pkg/rsema1d/reconstructor.go:84-98 | in-place compaction to the first proofs of unseen indices; the counter equals the number of seen indices |
| Reconstructor.Reconstructor.VerifyBatch | pkg/rsema1d/reconstructor.go:132-152 | the first accepted batch installs its combinations, later ones are checked against those |
| Reconstructor.Reconstructor.Want | pkg/rsema1d/reconstructor.go:107-116 | zero exactly when K distinct rows are seen, otherwise the number missing |
| Reconstructor.CallsReturnDisjointIndices | pkg/rsema1d/reconstructor.go:74-76 | in every interleaving different calls return disjoint indices |
| Reconstructor.SeenIsReturned | pkg/rsema1d/reconstructor.go:84-98 | the seen indices are exactly those some call returned |
| Reconstructor.InstalledStateIsFinal | pkg/rsema1d/reconstructor.go:132-152 | once combinations are installed nothing changes the verifier's state |
| Reconstructor.AcceptedBatchesAgree | pkg/rsema1d/reconstructor.go:132-152 | all accepted batches of a run have one row root and one row length |
| Reconstructor.LaterBatchesAcceptedAfresh | pkg/rsema1d/reconstructor.go:132-152 | every later accepted batch is one that a fresh verifier with the installed combinations accepts |
| Reconstructor.SeenIndicesWereVerified | pkg/rsema1d/reconstructor.go:77-98 | every seen index is in range and was carried by an earlier accepted batch |
| DownloadSession.StepKeepsInv | fibre/download.go:64-178 | every atomic step keeps the session invariant |
| DownloadSession.NoWakeupIsLost | fibre/download.go:64-118 | inflight is the sum of unreleased reservations; a dispatcher parked without token or signalling worker can neither finish nor pick, and some worker is still in flight |
| DownloadSession.StoppedMeansStored | fibre/download.go:107-178 | when iteration stops every worker has released, rows suffice or all validators were asked, stored rows fit their slot, and slots are exactly the seen indices iff the accepted length is within MaxRowSize |
| DownloadSession.OversizedRowIsSeenNotStored | fibre/download.go:126-147 | a run of one validator that stops with its row seen, nothing wanted and no slot filled |
| DownloadSession.AcceptedLengthIsFixed | fibre/download.go:157-169 | the accepted row length and the slab's slot size never change, and nothing seen or stored is lost |
| DownloadSession.RunsAreFinite | fibre/download.go:64-118 | a session with n validators takes at most 9n + 3 steps |
| DownloadSession.NeverStuck | fibre/download.go:64-118 | until iteration stops or is cancelled some step other than cancelling is possible |
| VerifiedDownload.MarkIsEnabled | fibre/download.go:126-147 | whatever batch the reconstructor accepted is non-empty, in range and of the session's row length, so the session can mark it |
| VerifiedDownload.RunsRefine | fibre/download.go:64-178 | in every interleaving of workers on one reconstructor the session runs as its own model allows, sees what the reconstructor saw, and settles on the reconstructor's row size |
| VerifiedDownload.StoppedHoldsVerifiedRows | fibre/download.go:107-178 | when iteration stops every filled slot has the length of a row that an accepted batch carried at that index, and all seen rows have slots iff their length is within MaxRowSize |
| EscrowLedger.SlackIsConserved | fibre/escrow_ledger.go:121-225 | apart from the seeding write every step keeps chain escrow minus balance, holds, unsettled promises and uncredited deposits, up to deposits the ledger is not told about |
| EscrowLedger.StepKeepsInv | fibre/escrow_ledger.go:121-225 | every step that respects seeding first keeps solvency, exclusive seeding and single-flight deposits |
| EscrowLedger.SeededRunsAreSolvent | fibre/escrow_ledger.go:191-225 | when seeding precedes admits and computed deposits, chain escrow covers balance, holds and unsettled promises, and at most one deposit is under way |
| EscrowLedger.EveryPromiseSettles | fibre/client_put.go:71-80 | after every such run all dispatched promises can settle, all of them together |
| EscrowLedger.NoGraceSeedsFirst | fibre/client_put.go:47-69 | without a grace period every run of Puts and refills seeds first |
| EscrowLedger.GraceOvercommits | fibre/escrow_ledger.go:130-146 | for every watermark, a concrete run with a grace period ends insolvent |
| EscrowLedger.RestartOvercommits | fibre/escrow_ledger.go:33-42 | without a grace period, promises of an earlier process make a concrete run insolvent |
| EscrowLedger.AlwaysSolventExactly | fibre/escrow_ledger.go:121-225 | every interleaving is solvent if and only if there is no grace period and nothing is outstanding at the start |
| Occupancy.StepKeepsInv | fibre/server_upload.go:86-134 | every step keeps lock exclusion, absence of shards about to be stored, and conservation |
| Occupancy.UsageIsExact | fibre/occupancy.go:38-65 | in every interleaving tracked usage is file bytes plus in-flight reservations plus pruned bytes not yet released |
| Occupancy.QuietUsage | fibre/server_prune.go:33-41 | when nothing is under way usage is exactly the bytes on disk |
| Occupancy.DuplicatesReserveOnce | fibre/server_upload.go:86-90 | of concurrent uploads of one shard at most one has bytes reserved |
| Occupancy.OnlyFittingAdditionsRaise | fibre/occupancy.go:52-65 | whatever interleaves, an addition that passes a positive budget leaves held bytes within it, and nothing else raises them |
| Occupancy.HeldStaysWithinBudget | fibre/occupancy.go:49-65 | under a fixed positive budget held bytes stay within the budget, or within what was stored at the start |
| BlobRefCount.StepKeepsInv | fibre/blob.go:254-279 | every load, swap, decrement and release keeps count and owners in step |
| BlobRefCount.CountIsOwners | fibre/blob.go:190-198 | the count is the number of live owners; the release function runs or is due at most once, and exactly when there is no owner |
| BlobRefCount.UsersAreSafe | fibre/client_upload.go:423-463 | while the caller keeps the blob, an upload works or a shard goroutine runs, nothing has been or is about to be released |
| BlobRefCount.ZeroIsFinal | fibre/blob.go:259-269 | at zero every later retain is refused and the count stays zero |
| BlobRefCount.NestedRetainSucceeds | fibre/client_upload.go:423-434 | the retain whose result is ignored never finds the blob released |
| BlobRefCount.ReleasedInTheEnd | fibre/blob.go:274-279 | when the caller freed the blob and all uploads ended, the release function ran exactly once |
| StoreKeys.TimestampOrder | fibre/store.go:519-523 | for years 0 to 9999 timestamps sort as the moments they denote |
| StoreKeys.FiveDigitYearSortsEarly | fibre/store.go:519-523 | year 10000 sorts before year 9999 |
| StoreKeys.SortsExactly | fibre/store.go:519-523 | for every bound on the year, all timestamps below it sort as moments if and only if the bound is at most 10000 |
| StoreKeys.HexRoundTrip | fibre/store.go:529-539 | decoding inverts encoding |
| StoreKeys.ParseInvertsPruneKey | fibre/store.go:557-577 | parsing a prune key gives back commitment and promise hash |
| StoreIndex.DueIsPrefix | fibre/store.go:427-436 | in key order nothing is due after the first key that is not |
| StoreIndex.Store.Put | fibre/store.go:141-214 | file, promise, marker and ordered prune entry are added |
| StoreIndex.Store.Has | fibre/store.go:311-331 | true exactly when both marker and file exist |
| StoreIndex.Store.Scan | fibre/store.go:427-467 | the early-stopping scan collects exactly the due entries and removes exactly their files, counting bytes once |
| StoreIndex.Store.PruneBefore | fibre/store.go:409-477 | removes exactly the due, well-formed entries with file, marker and promise, and returns their number and the bytes freed |
| StoreIndex.RemovedExactlyWhenEarlier | fibre/store.go:427-441 | for years 0 to 9999 an entry is removed if and only if its minute precedes the cutoff's |
| ShardRetention.ShardPruneAt | fibre/server_upload.go:220-230 | never before the promise expires nor before creation plus retention, and one of the two |
| ShardRetention.IndexIsStanding | fibre/store.go:167-477 | after every run the index holds exactly the keys of the Puts that no prune since found due |
| ShardRetention.TakenExactlyWhenDue | fibre/store.go:402-477 | a prune takes a shard if and only if the earliest prune time in the index for it lies in an earlier minute |
| ShardRetention.StoredExactly | fibre/store.go:141-477 | after every run a shard has file and marker if and only if some Put stored it and no prune since took it |
| ShardRetention.FilesAreIndexed | fibre/store.go:402-477 | every shard on disk has an index entry that will remove it |
| ShardRetention.EarlierRetentionWins | fibre/store.go:141-477 | a shard put twice goes once the first of its prune times has passed |
| ShardRetention.PrunedMeansExpired | fibre/server_upload.go:220-230 | whatever a prune takes had expired |
| ShardRetention.KeptWhileUnexpired | fibre/store.go:402-477 | in every run of Puts and prunes a stored shard stays through every prune up to its promise's expiry |
| ShardRetention.GoneOnceDue | fibre/store.go:402-477 | the first prune in a minute after all prune times of a shard removes file and marker |
| ShardCodec.Writer.WriteShard | fibre/store_codec.go:35-88 | fails exactly on a missing row; otherwise appends the encoding |
| ShardCodec.ShardBinarySize | fibre/store_codec.go:90-103 | equals the length of the encoding |
| ShardCodec.Reader.ReadShard | fibre/store_codec.go:133-207 | returns the decoded shard and leaves the rest of the stream, or fails |
| ShardCodec.DecodedWasEncoded | fibre/store_codec.go:105-207 | the format is canonical: whatever is read is the encoding of a shard within the limits followed by the unread rest |
| ShardCodec.RoundTripExactly | fibre/store_codec.go:35-207 | reading what was written returns the same shard and any suffix, if and only if the shard is within the limits |
| PooledTree.FreshTree.Push | pkg/wrapper/nmt_wrapper.go:92-113 | accepts and appends the leaf with the quadrant's namespace, or changes nothing |
| PooledTree.BufferTree.Resize | pkg/wrapper/buffered_tree.go:184-193 | the buffer always has room for the width; it is replaced only by a larger one |
| PooledTree.BufferTree.Reset | pkg/wrapper/buffered_tree.go:196-200 | starts a use with no leaves |
| PooledTree.BufferTree.Reuse | pkg/wrapper/buffered_tree.go:83-91 | a tree of any history starts a new use exactly like a fresh one |
| PooledTree.BufferTree.FillEntry | pkg/wrapper/buffered_tree.go:149-159 | writes the next entry within bounds and leaves the bytes of every earlier leaf |
| PooledTree.BufferTree.Push | pkg/wrapper/buffered_tree.go:134-165 | for shares within ShareSize the same verdict and leaves as the plain wrapper, read through the buffer; longer ones are refused |
| PooledTree.PooledMatchesFreshExactly | pkg/wrapper/buffered_tree.go:134-165 | over a series of pushes both agree if and only if the plain wrapper takes no share longer than ShareSize |
| PooledTree.OversizedShareDiffers | pkg/wrapper/buffered_tree.go:134-148 | one share of 513 bytes that the plain wrapper takes and the pooled tree refuses |
| ShareProof.CreateShareToRowRootProofs | pkg/proof/proof.go:160-211 | fails exactly when a row does not rebuild to its root; otherwise the range proofs and shares of every row's span |
| ShareProof.NewShareInclusionProof | pkg/proof/proof.go:85-149 | the proof of a range, or failure exactly when one of its rows does not rebuild |
| ShareProof.DataIsTheRange | pkg/proof/proof.go:160-211 | the proof carries the square's shares from Start to End in order |
| ShareProof.CoveredIsLength | pkg/proof/proof.go:185-209 | the spans of the first rows add up to the number of shares they contribute |
| ShareProof.RangeFits | pkg/proof/proof.go:94-98 | the rows and leaves computed from any range inside the square lie in its original quadrant |
| ShareProof.RowIndexIsImmaterial | pkg/proof/proof.go:163-174 | within the original half the axis index changes no leaf and no verdict |
| ShareProof.CommittedRebuilds | pkg/proof/proof.go:163-183 | on a committed square the row-relative index never makes proving fail |
| ShareProof.ValidateCounts | pkg/proof/share_proof.go:17-43 | rejects nil data; otherwise the running total accepts exactly positive spans that sum to the number of shares |
| ShareProof.ValidateRowProof | pkg/proof/row_proof.go:13-44 | accepts exactly matching counts with every row root proven |
| ShareProof.VerifyProof | pkg/proof/share_proof.go:56-91 | for any proof with a row root per share proof: accepts exactly a one-byte version, positive spans, and every row's own segment of the data verifying |
| ShareProof.Validate | pkg/proof/share_proof.go:16-54 | accepts exactly when counts, row proofs and all segments are right |
| ShareProof.HonestCounts | pkg/proof/share_proof.go:17-43 | the counting checks pass for the proof of every range |
| ShareProof.CursorFindsSegment | pkg/proof/share_proof.go:56-91 | the checker's cursor gives each row back exactly the shares of its span |
| ShareProof.HonestProofIsAccepted | pkg/proof/share_proof.go:16-91 | for every range of one namespace in a committed square the proof is accepted against the data root |
| ShareProof.AcceptedIsCommitted | pkg/proof/share_proof.go:16-91 | each segment of an accepted proof is the named stretch of the row or column at its path's position, in the claimed namespace, or the proof exhibits a forgery |
| ShareProof.RowNumbersAreUnchecked | pkg/proof/row_proof.go:13-48 | an accepted proof is accepted under any row numbers |
| ShareProof.RenumberedProofIsAccepted | pkg/proof/row_proof.go:13-48 | the proof of any range, renumbered to start at another row, is accepted with a wrong first row number |
| ShareProof.NumbersHoldExactly | pkg/proof/row_proof.go:40-48 | a row number that matches its path holds, and for distinct roots only such numbers hold |

## Left out

- Machine integers: lengths, stakes and counters are unbounded; the source's products in `AssignedRows` and
  `Select` use int64, and proof positions use int32.
- Values for shared state: DownloadSession, EscrowLedger, Occupancy and BlobRefCount model fields guarded by
  mutexes and atomics as one state value per atomic step, not as mutable objects.
- Reconstructor: the lock around verification is not a step of its own; a call's verification is one event and its
  marking another. `Reconstruct` itself is Reed-Solomon decoding and is not modelled.
- RowVerifier: nil proofs, scratch buffers, worker pools and byte-level row views are not modelled; field arithmetic,
  the parity matrix and the coefficient derivation are parameters.
- DownloadSession: a consumer that stops ranging over the sources early is not modelled, and decoding the blob is
  left out.
- ProcessProposal: the comparison of the data root and square size after the transaction loop is not modelled, nor
  are the locks and cache eviction of `CheckTx`; the cache is an arbitrary predicate of the blob transaction.
- EscrowLedger: withdrawals and other processes spending the same escrow are outside the model, and so is a grace
  period shorter than the promise timeout.
- Occupancy: file-system errors inside Put and PruneBefore, commit failures and crashes are outside the model; each
  Put and each prune is one step.
- StoreIndex: Get, payment-promise lookup, staging files and I/O errors are outside the model; the conversion of an
  instant to calendar fields is a parameter with the law that minutes keep their order.
- ShardCodec: I/O errors are outside the model, and all reading errors are one.
- PooledTree: the pool's channel and the return of a tree on `Root` are outside the model.
- ShareProof: extending the square and choosing ranges for transactions are outside the model.
- ShareProof.VerifyProof: called on its own with more share proofs than row roots the source indexes out of range;
  that call is excluded.
- SHA-256, ed25519, Leopard Reed-Solomon, GF(2^128), NMT, rsmt2d, go-square, pebble and the SDK ante chain are
  parameters.
- App wiring, gRPC handlers, keyring, metrics, the multiplexer that runs several app versions, the transaction
  client's retries, and the command-line tools pass calls on or format data; they are outside the model.
