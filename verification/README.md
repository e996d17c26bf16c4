# TopoStake in Dafny

TopoStake is a proof-of-stake protocol in which the nodes that relay a transaction sign
the hops it takes. The certified path earns its relays a part of the fee and, after a
delay, a bounded boost of their proposer weight. This project models the protocol's
logic in Dafny and proves what it promises. `dafny verify dfyconfig.toml` checks all of
it.

## What is modelled

* **Path credit** (`RealMath`, `Sequences`, `PathCredit`, `PaddingEval`): the formulas
  that divide a path's budget among its positions, the theorem that splitting a relay into several
  identities never pays, and the evaluator that searches all coalitions for a
  counterexample.
* **Path evidence** (`Encoding`, `Ledger`, `Evidence`, `PathRoundTrip`, `ReceiptRuns`,
  `ReceiptExactness`, `VerifyCache`): two-sided hop signing over a chained prefix
  commitment, the table of receipts, aggregation, verification and its cache.
* **Consensus** (`Config`, `Verdicts`, `Weights`, `WeightLaws`, `Rewards`, `Scores`,
  `Selection`, `Settlement`, `PlanExactness`, `ScoreExactness`, `Consensus`, `CacheInfluence`,
  `TopoStake`): path verdicts through the shared cache, frozen proposer weights, reward
  plans, scores, selection, delayed settlement and delayed score activation. `Consensus` is the state
  machine on values, `TopoStake` the object whose methods update fields in loops and are
  proved to take the machine's steps.
* **Chain store and fork resolution** (`Merkle`, `ChainStore`, `ForkSync`): the pruned
  chain with its index of all accepted transactions, and truncate-and-replay
  synchronisation.
* **Topology** (`Attachment`, `Betweenness`): the preferential-attachment generator and
  the breadth-first betweenness score.

`f64` values are `real`. A digest is the term of what was hashed, so concatenation and
its ambiguities are part of the model and the injectivity of the path commitments is
proved. Where the program turns a digest into bytes or text, the field `sha3` of a
`World` record gives 32 arbitrary bytes; only the binding of blocks needs that two
digests do not share them, and it needs it only for the finitely many digests of the
blocks at hand. The JSON of a header or path record determines it, and the JSON of a
transaction or path record starts with a brace. A signature is a text that parses to a multiset of
(signer, message) pairs. The natural logarithm is a parameter of which only
`0 <= ln(x) <= x - 1` for `x >= 1` is used, and only in the bound on score mass. Random
numbers are arguments.

## What the proofs found

* Cached and uncached verification disagree: the cache key joins the path with `>`, so
  a path entry that itself contains `>` can hit the entry of another path.
  `VerifyCache.CacheExact` gives the exact condition, and by
  `VerifyCache.AmbiguousSibling` every verifying record with three path entries has
  records that meet it.
* The consensus code judges paths through that cache. A block's reward plan is
  independent of the history exactly when no such record of it can move money
  (`PlanExactness.PlanExact`), and the contributions scored for an epoch are exactly when
  no such record of it can earn credit (`ScoreExactness.CreditExact`). Where a record can
  move money, a block of a later epoch decides whether its relays are paid
  (`CacheInfluence.LaterBlocksInterfere`). Frozen weights and elections depend on no
  block before its epoch's scores activate, ambiguous records or not
  (`Consensus.FrozenWeightsIsolated`).
* Two verified records of one transaction that share an honest relay need not have the
  same prefix: receipts are looked up by the hash *text* while statements commit to
  *bytes*. On any chain the law holds exactly when no two admitted texts stand for the transaction's
  bytes (`ReceiptExactness.PrefixLawExact`). Two texts do when they differ in letter
  case; and because text that is not hexadecimal is hashed instead, the JSON a
  transaction's hash was taken of always does, so without a restriction on the relayed
  texts the law fails for every transaction
  (`ReceiptExactness.UnrestrictedTextsBreakPrefix`). Relaying only texts in the form of
  a verifying transaction's hash restores it (`ReceiptExactness.CanonicalTextsKeepPrefix`).
* Relay rewards and burned fees add up to the relay part of the fees exactly when no
  transaction with a credited path has a negative fee (`Rewards.FeeConservation`).
* With the score bonus off, TopoStake selects the validator that proof of stake selects
  exactly when the draw hits none of the accumulated stakes, because one compares with
  `>=` and the other with `>` (`Selection.EtaZeroIsProofOfStake`). A draw of zero
  selects the first validator even if it has no weight (`Selection.SelectedHasWeight`).
* A larger score raises its validator's weight and lowers the others' together, but not
  necessarily each of them: a third validator can gain where the raised one takes more
  score mass from a competitor than it turns into weight
  (`WeightLaws.RaiseCanHelpThird`; the exact condition is `WeightLaws.OtherShareExact`).
* A record whose only entry is its proposer is accepted with any non-empty signature
  text, since no hop is left to check (`PathRoundTrip.SelfMinedRecord`). Apart from that
  case the two verifications of a path, in flight and in a block, agree on every path
  (`PathRoundTrip.InFlightIffRecord`).
* The data field of a transaction is covered by neither its hash nor its signature
  (`Ledger.DataIsUnbound`).
* A Merkle root does not bind the number of leaves, but it does bind the set of leaves
  (`Merkle.RootNotInjectiveAcrossLengths`, `Merkle.RootBindsLeafSet`).
* A snapshot that replaces the local chain forgets the transactions of the blocks it
  leaves out, so one of them can be accepted again (`ForkSync.SnapshotForgets`).
* The fork handler reads the index of the last block after a replay, which panics when
  the replay has left the window empty. On a valid store this happens exactly when the
  response diverges at the first retained block with a block that does not verify
  (`ForkSync.ValidStorePanicExact`, `ForkSync.RefusedRestartPanics`); a window with a
  gap makes the handler panic as well (`ForkSync.GapPanics`).
* A fork at the first retained block restarts the window from a block that is checked on
  its own only. The chain invariant survives exactly when that block continues the pruned
  part of the chain (`ForkSync.HandlerInvExact`).

## Model

| member | source | states |
|---|---|---|
| `PathCredit.LambdaTimesOnePlusR` | src/consensus/topostake.rs:183-191 | for every depth the budget factor lambda is the reciprocal of 1 + r |
| `PathCredit.Calibration` | src/consensus/topostake.rs:183-191 | lambda falls with the depth from 3/4 towards 2/3 and r rises from 1/3 towards 1/2; at the default depth they are 9/13 and 4/9 |
| `PathCredit.BudgetBelowOneAndDecreasing` | src/consensus/topostake.rs:193-201 | path budgets are positive, below one and strictly decreasing in the length |
| `PathCredit.BudgetAtTargetDepth` | src/consensus/topostake.rs:193-201 | up to the target depth the budget is a power of lambda; beyond it one more hop scales length times budget by lambda |
| `PathCredit.GammaProfile` | src/consensus/topostake.rs:203-216 | the shares of a path are a geometric sequence with ratio r normalised to the budget |
| `PathCredit.GammasSumToBudget` | src/consensus/topostake.rs:203-216 | the shares of all positions add up to exactly the path budget |
| `PathCredit.CoalitionCreditBounded` | src/consensus/topostake.rs:193-216 | no set of positions collects more than the budget, which is at most one |
| `PathCredit.GammaLongerPath` | src/consensus/topostake.rs:203-216 | a share never grows when the path gets longer, wherever the position moves |
| `PathCredit.PaddedRunAtMostRelay` | src/consensus/topostake.rs:203-216 | a run of identities in place of a relay collects at most what the relay did |
| `PathCredit.PaddingNeverPays` | src/security_eval.rs:71-87 | for every depth, length, relay, number of inserted identities and coalition with the relay, padding does not raise the coalition's credit |
| `PaddingEval.SortPositionsCorrect` | src/security_eval.rs:69-83 | sorting keeps every position as often as before and orders the list |
| `PaddingEval.CreditOfList` | src/security_eval.rs:24-29 | the sum over a list of distinct positions is the credit of the set |
| `PaddingEval.MasksEnumerateCoalitions` | src/security_eval.rs:50-69 | the masks enumerate every coalition containing the relay, each exactly once |
| `PaddingEval.PaddedPositions` | src/security_eval.rs:71-83 | the padded list is the padded coalition, without repetition |
| `PaddingEval.BaseCreditPositive` | src/security_eval.rs:85-87 | the denominator of the ratio is positive for every coalition with the relay |
| `PaddingEval.CreditsOfMask` | src/security_eval.rs:62-86 | one round of the mask loop yields the credits of that mask's coalition before and after padding |
| `PaddingEval.EvaluatePaddingCase` | src/security_eval.rs:39-108 | the reported ratio is the true maximum over all coalitions, is attained by the reported positions, and never exceeds one |
| `PaddingEval.SweepDepth` | src/security_eval.rs:117-130 | each admissible shape of one depth gets exactly one row, in order, and passes for every tolerance >= 0 |
| `PaddingEval.EvaluatePaddingGrid` | src/security_eval.rs:110-133 | the rows are exactly the admissible shapes of the given depths, and all pass for every tolerance >= 0 |
| `Encoding.HexRoundTrip` | src/blockchain/path.rs:551-552 | decoding the hexadecimal text of bytes gives the bytes back |
| `Encoding.CanonicalHashBytesInjective` | src/blockchain/path.rs:551-552 | on lower-case 64-digit texts the committed bytes determine the text |
| `Encoding.UpperCaseSibling` | src/blockchain/path.rs:551-552 | a canonical hash text with a letter has a different text, in another letter case, with the same bytes |
| `Encoding.PreimageSibling` | src/blockchain/path.rs:551-552 | text that is not hexadecimal has the bytes of the hash text of its own digest, a different text |
| `Encoding.EdgeStatementInjective` | src/blockchain/path.rs:575-585 | a hop statement determines prefix commitment, sender and receiver |
| `Encoding.ChainInjective` | src/blockchain/path.rs:544-573 | a prefix commitment determines transaction bytes, chain, epoch and every node |
| `Encoding.ChainValueForNodes` | src/blockchain/path.rs:544-573 | the digest loop computes the commitment to the decoded or hashed bytes and to the prefix ending at the given node, clamped to the last node |
| `Ledger.VerifiedHashIsCanonical` | src/blockchain/transaction.rs:61-81 | the hash text of a verifying transaction is in canonical form |
| `Ledger.NewTransactionVerifies` | src/blockchain/transaction.rs:32-81 | a freshly made transaction verifies if and only if its signature recovers to its sender |
| `Ledger.SignedBySender` | src/blockchain/transaction.rs:61-81 | the sender of a verifying transaction has signed the bytes its hash text decodes to |
| `Ledger.HashBindsJson` | src/blockchain/transaction.rs:61-81 | without a collision, verifying transactions with one hash agree on the JSON of every field but hash, signature and data |
| `Ledger.DataIsUnbound` | src/blockchain/transaction.rs:61-81 | any data may be attached to a verifying transaction |
| `Evidence.TransactionPaths.AppendOutgoingHop` | src/blockchain/path.rs:89-111 | succeeds exactly when the sender is the tail, nothing is pending and the receiver is new; then one signed hop is added, otherwise nothing changes |
| `Evidence.TransactionPaths.CompletePendingHop` | src/blockchain/path.rs:113-154 | answer, path and receipt table after the receiver's step, including the refused and counted conflicts |
| `Evidence.TransactionPaths.VerifyCompletedHops` | src/blockchain/path.rs:194-244 | the scan answers whether every hop carries both signatures on its own statement |
| `Evidence.TransactionPaths.HasRepeatedIdentities` | src/blockchain/path.rs:280-285 | the answer is whether some identity occurs twice |
| `Evidence.TransactionPaths.ToAggregatedSignedPaths` | src/blockchain/path.rs:330-397 | the record built from a path, empty signature included where aggregation is refused |
| `Evidence.AggregateSignatures` | src/blockchain/path.rs:359-389 | on verified hops the aggregation loop gathers every signature of the path |
| `Evidence.FullPathEndsWithMiner` | src/blockchain/path.rs:505-511 | the full path ends with the proposer, who is added exactly if the recorded path does not already end with them |
| `Evidence.HasRepeatedNodes` | src/blockchain/path.rs:591-594 | the scan with a set of seen nodes finds a repetition if and only if there is one |
| `PathRoundTrip.GrowthIsWellBuilt` | src/blockchain/path.rs:89-163 | every path grown by successful steps has distinct identities and properly signed hops |
| `PathRoundTrip.RoundTrip` | src/blockchain/path.rs:330-397 | a grown path of a verifying transaction passes its own check, and its record verifies for its tail and gives back its node sequence |
| `PathRoundTrip.CompletedHop` | src/blockchain/path.rs:194-244 | a completed hop, written out: two registered ends that have both signed the statement over the whole prefix |
| `PathRoundTrip.RecordOf` | src/blockchain/path.rs:330-397 | the record of any path whatsoever carries a signature if and only if every hop is completed, and it then aggregates exactly both signatures of each hop |
| `PathRoundTrip.SelfMinedRecord` | src/blockchain/path.rs:419-451 | a record whose only entry is its proposer verifies with any non-empty signature text |
| `PathRoundTrip.InFlightIffRecord` | src/blockchain/path.rs:156-163 | whatever path is handed over, its record verifies for a proposer if and only if the path verifies for that address, or it is a verified one-hop path and the proposer its origin |
| `PathRoundTrip.PairsBind` | src/blockchain/path.rs:463-486 | equal multisets of expected pairs mean equal transaction bytes, chain, epoch and nodes |
| `PathRoundTrip.AggregateBinds` | src/blockchain/path.rs:419-511 | one aggregate signature verifies for only one transaction hash, chain, epoch and node sequence of at least one hop |
| `ReceiptRuns.RunKeepsInv` | src/blockchain/path.rs:113-154 | after every interleaving of hop steps each issued receipt is in the table and commits to a node prefix, and honest nodes signed only as senders or by a receipt |
| `ReceiptRuns.ReceiptsUnique` | src/blockchain/path.rs:131-148 | in every run a receiver signs at most one statement per hash text, chain and epoch |
| `ReceiptRuns.CountersignExact` | src/blockchain/path.rs:113-154 | an open hop is countersigned if and only if the registered tail has signed the statement over the whole prefix and no other statement is on record; new path, table and conflict count in either case |
| `ReceiptRuns.ReceiptsAnswerSenders` | src/blockchain/path.rs:113-154 | in every run without forged sender signatures, every receipt answers a hop its sender has signed |
| `ReceiptRuns.PositionHasReceipt` | src/blockchain/path.rs:419-491 | every honest position of a verified record has an issued receipt for exactly that hop |
| `ReceiptRuns.PrefixBinding` | src/blockchain/path.rs:587-589 | after any run, two verified records of one transaction that share an honest node agree on everything up to it, if only one admitted text stands for the transaction's bytes |
| `ReceiptExactness.ConflictingRun` | src/blockchain/path.rs:544-589 | from two different texts that stand for the transaction's bytes, hexadecimal or not, a run that breaks the prefix law is constructed |
| `ReceiptExactness.PrefixLawExact` | src/blockchain/path.rs:544-589 | on every chain, the prefix law holds in all runs if and only if no two admitted texts stand for the transaction's bytes |
| `ReceiptExactness.JsonTextBreaksPrefix` | src/blockchain/path.rs:551-552 | admitting a transaction's hash and the JSON it was taken of breaks the law for it |
| `ReceiptExactness.LetterCaseBreaksPrefix` | src/blockchain/path.rs:551-552 | admitting a transaction's hash and the same text with one letter in upper case breaks the law for it |
| `ReceiptExactness.UnrestrictedTextsBreakPrefix` | src/network/node.rs:575-581 | completing hops for any hash text, as nodes do, breaks the law for every verifying transaction |
| `ReceiptExactness.CanonicalTextsKeepPrefix` | src/blockchain/path.rs:587-589 | if only canonical hash texts are completed the law holds for every transaction |
| `VerifyCache.JoinInjective` | src/blockchain/path.rs:493-503 | on non-empty paths free of the separator the joined text determines the path |
| `VerifyCache.KeyFields` | src/blockchain/path.rs:493-503 | equal cache keys mean equal fields, and equal paths up to joining |
| `VerifyCache.ReceiptKeyInjective` | src/blockchain/path.rs:587-589 | on the hash texts of verifying transactions, receipts of different transactions, chains, epochs or receivers never share a slot |
| `VerifyCache.PositiveAnswer` | src/blockchain/path.rs:419-451 | in every cache a positive answer implies a verifying transaction, the right epoch and origin, and a repetition-free path |
| `VerifyCache.EntriesExplained` | src/blockchain/path.rs:453-490 | every entry of a reachable cache is the verdict of some earlier call with that key |
| `VerifyCache.CacheAgrees` | src/blockchain/path.rs:419-491 | in every reachable cache the cached answer is the uncached one, unless the record is ambiguous |
| `VerifyCache.CacheExact` | src/blockchain/path.rs:419-503 | some history makes the two answers differ if and only if a path entry contains the separator and the split path verifies |
| `VerifyCache.AmbiguousSibling` | src/blockchain/path.rs:493-503 | merging two neighbouring entries of a verifying record gives a record on which the cached answer depends on the history |
| `VerifyCache.PathVerifyCache.VerifyAtEpoch` | src/blockchain/path.rs:419-491 | verdict and new cache of the verification method; without the cache the verdict is the uncached one |
| `VerifyCache.CheckAggregate` | src/blockchain/path.rs:459-486 | the loop over hops accepts exactly the signature that consists of the expected pairs, and gives up on unparsable signatures or unregistered nodes |
| `VerifyCache.CollectPairs` | src/blockchain/path.rs:463-484 | succeeds exactly on fully registered paths, with two pairs per hop |
| `Merkle.CalMerkleRoot` | src/blockchain/block.rs:166-184 | the halving loop over hexadecimal leaves computes the root defined level by level |
| `Merkle.HashLevel` | src/blockchain/block.rs:169-180 | one round duplicates an odd last leaf, then decodes, concatenates and hashes the leaves in pairs |
| `Merkle.RootInjective` | src/blockchain/block.rs:166-195 | without a collision among the digests of the two trees, equal roots of equally many hash texts mean equal leaf lists |
| `Merkle.RootNotInjectiveAcrossLengths` | src/blockchain/block.rs:166-184 | three leaves and the same three with the last repeated have one root |
| `Merkle.RootBindsLeafSet` | src/blockchain/block.rs:166-184 | for leaves that are hashes of texts and without a collision among the digests of the two trees, equal roots mean equal sets of leaves, whatever their number |
| `ChainStore.LeavesDecode` | src/blockchain/block.rs:118-145 | when a block's roots are computed all leaves are hexadecimal, so decoding them does not panic |
| `ChainStore.VerifiesIffAssembled` | src/blockchain/block.rs:81-150 | a block verifies if and only if assembling its own contents gives the block |
| `ChainStore.IndexedIffCarried` | src/blockchain/mod.rs:87-89 | a hash is among those of a list of blocks if and only if some transaction of some block carries it |
| `ChainStore.RefusalReason` | src/blockchain/mod.rs:51-103 | what each error says about the refused block |
| `ChainStore.AddKeepsInv` | src/blockchain/mod.rs:51-103 | an accepted block extends the accepted chain by itself; window and index stay exact |
| `ChainStore.PopKeepsInv` | src/blockchain/mod.rs:34-40 | a removal that leaves a block gives a valid store of the chain without its last block |
| `ChainStore.PopUndoesAdd` | src/blockchain/mod.rs:34-103 | removal inverts an addition that pruned nothing |
| `ChainStore.TruncateKeepsInv` | src/network/node.rs:1268-1284 | truncating the window to at least one block, with the hashes of the removed blocks taken out of the index, is valid for the shorter chain |
| `ChainStore.RunKeepsInv` | src/blockchain/mod.rs:21-103 | after every run of additions and removals that never empties the window, it is a linked suffix of the accepted chain and the index holds exactly the accepted hashes, pruned ones included |
| `ChainStore.NoHashTwice` | src/blockchain/mod.rs:51-103 | no transaction hash occurs in two different accepted blocks |
| `ChainStore.ScansAreFilters` | src/blockchain/mod.rs:125-149 | on valid stores the backward scans for the last slot and epoch miss no block of the window |
| `ChainStore.ScansFindLast` | src/blockchain/mod.rs:125-149 | on every reachable store the scans return exactly the retained blocks of the last slot and of the last epoch |
| `ChainStore.Blockchain.constructor` | src/blockchain/mod.rs:22-32 | a new chain holds the genesis block and indexes its transactions |
| `ChainStore.Blockchain.AddBlock` | src/blockchain/mod.rs:51-103 | error or new window and index of an addition; the invariant is kept and the accepted chain grows exactly on success |
| `ChainStore.Blockchain.PopBlock` | src/blockchain/mod.rs:34-40 | returns the last block and unindexes its transactions; the invariant is kept while a block remains |
| `ForkSync.HashBindsBlock` | src/blockchain/block.rs:114-150 | without a collision among the digests of the two blocks, a header hash determines the header and, through the two Merkle roots, the sets of transactions and of path records, and their order where there are equally many |
| `ForkSync.AgreeBelow` | src/blockchain/mod.rs:51-103 | without a collision among the digests of the two chains, one common block hash means that all earlier blocks agree on header, transactions and path records |
| `ForkSync.NextIsAccepted` | src/blockchain/mod.rs:51-103 | a store that holds a chain equal to a prefix of another accepts that chain's next block |
| `ForkSync.ReplayAdopts` | src/network/node.rs:1293-1324 | replaying the rest of a chain onto a shared prefix accepts every block and removes exactly its transactions from the mempool |
| `ForkSync.ScanFindsFork` | src/network/node.rs:1249-1291 | the scan of a response finds the first position after the shared block where the chains part or the local one ends |
| `ForkSync.ForkResolutionAdopts` | src/network/node.rs:1196-1338 | after handling the tail of a longer accepted chain with a shared retained block, the local tip is the response's, store, index and accepted chain are those of the local prefix followed by the peer's blocks, and the mempool lost exactly the replayed transactions |
| `ForkSync.ReplayEmpties` | src/network/node.rs:1293-1324 | a replay leaves the window empty if and only if it was empty and the first block does not verify |
| `ForkSync.PanicExact` | src/network/node.rs:1196-1338 | for every state and response the handler panics if and only if there is no block to start from, a cut lies outside the window, or a fork at the first retained block starts with a block that does not verify |
| `ForkSync.ValidStorePanicExact` | src/network/node.rs:1293-1330 | on a valid store only the last of these is possible, and it is exact |
| `ForkSync.RefusedRestartPanics` | src/network/node.rs:1293-1330 | every valid store has such responses; the panic leaves an empty window, the mempool and the progress flag as they were |
| `ForkSync.GapPanics` | src/network/node.rs:1268-1274 | on a window with a gap a diverging block in a longer response makes the handler panic with nothing changed |
| `ForkSync.HandlerInvExact` | src/network/node.rs:1196-1338 | for every valid store and response the chain invariant survives the handler if and only if a replacing response is an accepted chain that fits and a block replayed onto an emptied window verifies, extends the pruned chain and repeats none of its transactions |
| `ForkSync.SnapshotExact` | src/network/node.rs:372-395 | a snapshot of a chain is a valid store of it if and only if it fits and the blocks it leaves out carry no transaction |
| `ForkSync.SnapshotForgets` | src/network/node.rs:372-395 | a transaction of a left-out block is refused by a valid store of the chain and accepted again after the snapshot |
| `ForkSync.SnapshotReplaces` | src/network/node.rs:372-395 | afterwards the window is the snapshot, a hash is indexed if and only if a block carries it, exactly the mempool entries no block carries are left unchanged, and the synchronisation has ended |
| `ForkSync.GapReplaces` | src/network/node.rs:1212-1246 | a longer response from beyond the next index has the same effect |
| `ForkSync.HandlerSeparates` | src/network/node.rs:1196-1338 | in every branch, panicking ones included, a mempool without accepted transactions stays without them |
| `ForkSync.ShorterIsIgnored` | src/network/node.rs:1196-1208 | a response that does not reach beyond the local tip changes nothing |
| `ForkSync.LongerEndsSync` | src/network/node.rs:1212-1337 | every longer response that does not panic ends the synchronisation |
| `ForkSync.Node.ResponseBlockSync` | src/network/node.rs:1176-1339 | panic, window, index, mempool, sync flag and accepted chain of the handler in every branch, panicking ones included |
| `ForkSync.Node.ReplaceLocalChain` | src/network/node.rs:372-395 | window and index are those of the snapshot and the packed transactions leave the mempool |
| `ForkSync.Node.ReplayBlocks` | src/network/node.rs:1293-1324 | the replay loop stops at the first refused block, and the accepted chain grows by exactly the added ones |
| `ForkSync.Node.TruncateChain` | src/network/node.rs:1268-1284 | cuts window, index and accepted chain back to the kept blocks |
| `ForkSync.ScanResponse` | src/network/node.rs:1249-1291 | the scan loop returns the fork point, or that the cut is out of range |
| `Verdicts.BlockAgrees` | src/consensus/topostake.rs:517-527 | in every cache that calls of the verifier can produce, the verdicts on a block without ambiguous records are the uncached ones |
| `Verdicts.EpochAgrees` | src/consensus/topostake.rs:456-492 | two such caches give the same verdicts on an epoch without ambiguous records |
| `Verdicts.ValidIsDistinct` | src/blockchain/path.rs:419-451 | a positive verdict, cached or not, is on a path that names nobody twice |
| `Verdicts.AmbiguousAccepted` | src/blockchain/path.rs:453-490 | after verifying the split record an ambiguous record is accepted, although without the cache it is refused |
| `Verdicts.ValidStaysValid` | src/blockchain/path.rs:453-490 | no such cache turns a valid record away |
| `Verdicts.CheckPathRecord` | src/consensus/topostake.rs:517-527 | verdict and cache of the hop-limit check and cached verification |
| `Verdicts.HopLimit` | src/consensus/topostake.rs:517-527 | a record is verified through the cache if its full path is within the hop limit, and otherwise refused with the cache untouched |
| `Weights.WeightForm` | src/consensus/topostake.rs:233-238 | weight is stake plus a bounded multiple of the harmonic blend of stake and score |
| `Weights.WeightSuperadditive` | src/consensus/topostake.rs:233-238 | two holdings pooled weigh at least as much as apart |
| `Weights.WeightRange` | src/consensus/topostake.rs:284-300 | a weight lies between the stake and (1 + eta * cap) times the stake |
| `Weights.NormalizedShares` | src/consensus/topostake.rs:509-515 | a normalised map sums to one, and a set's share is its part of the total |
| `Weights.DampedMass` | src/consensus/topostake.rs:240-267 | the damped scores of all validators add up to S / (kappa + S) for score total S, hence to less than one |
| `Weights.CoalitionEnvelope` | src/consensus/topostake.rs:269-306 | the frozen weight share of any coalition with stake share s and damped mass c is at most X / (X + 1 - s) with X its pooled weight, and that is at most (1 + eta * cap) * s |
| `Weights.SplitNeverGains` | src/consensus/topostake.rs:269-306 | splitting one identity's stake and active score over several never raises the summed weight |
| `Weights.SplitKeepsOthers` | src/consensus/topostake.rs:269-306 | such a split leaves every other validator's weight unchanged |
| `Weights.SplitShareNeverGains` | src/consensus/topostake.rs:269-306 | nor does it raise the parts' share of the frozen weight |
| `WeightLaws.DampedScoreIs` | src/consensus/topostake.rs:245-266 | the damped score of a listed validator is its positive recorded score over the floor plus all such scores of listed validators; missing and negative scores give nothing |
| `WeightLaws.DampedScoreAsRecorded` | src/consensus/topostake.rs:245-266 | for non-negative scores of listed validators that is the recorded score over the floor plus the sum of the recorded map |
| `WeightLaws.BonusIs` | src/consensus/topostake.rs:233-243 | the bonus is the cap times the score over score plus zeta times stake, and zero without stake |
| `WeightLaws.ScoreRaisesWeight` | src/consensus/topostake.rs:269-305 | with the bonus on and another validator with stake, a larger recorded score strictly raises its frozen weight and strictly lowers what all others hold together |
| `WeightLaws.ScoreLowersOthersRelatively` | src/consensus/topostake.rs:269-305 | each other validator with stake strictly loses relative to the raised one |
| `WeightLaws.OtherShareExact` | src/consensus/topostake.rs:269-305 | the frozen weight of a validator falls between two score maps if and only if its unnormalised weight falls by a larger factor than the total |
| `WeightLaws.ScorelessShareExact` | src/consensus/topostake.rs:269-305 | a validator without a score loses frozen weight if and only if the total unnormalised weight rises, and gains if and only if it falls |
| `WeightLaws.RaiseCanHelpThird` | src/consensus/topostake.rs:269-305 | three validators for which raising the score of one raises the frozen weight of another |
| `Rewards.PaymentsAreCredit` | src/consensus/topostake.rs:337-349 | relay payments total the relay budget times the credit of the validators' positions |
| `Rewards.PaymentsWithinBudget` | src/consensus/topostake.rs:337-351 | payments never exceed a non-negative budget, so the clamp on the burned rest never fires |
| `Rewards.CreditedRelayIsPaid` | src/consensus/topostake.rs:319-349 | on a path found valid each interior validator is paid exactly (1 - theta) times the fee times gamma of its position |
| `Rewards.TxConservation` | src/consensus/topostake.rs:319-352 | per transaction, paid plus burned is the relay budget except that the debt of a credited negative fee is dropped |
| `Rewards.FeeConservation` | src/consensus/topostake.rs:308-361 | whatever the verdicts, the rewards add up to base reward, theta times the fees and relay reward, and relay reward plus burned fee equals (1 - theta) times the fees if and only if no credited transaction has a negative fee |
| `Rewards.EveryFeeOnce` | src/consensus/topostake.rs:308-361 | amounts paid plus burned fees equal base reward plus the sum of all fees if and only if no path found valid with two hops or more belongs to a negative fee; the miner comes first with base reward and theta times the fees |
| `Rewards.ComputeBlockRewards` | src/consensus/topostake.rs:308-361 | the nested loops compute the reward plan under the cached verdicts and leave the cache they produce |
| `Rewards.PayRelays` | src/consensus/topostake.rs:337-349 | the loop over positions pays exactly the validators with a positive amount, in path order |
| `Rewards.CreditWeightRange` | src/consensus/topostake.rs:226-231 | a transaction's credit weight lies between zero and one and is backed by its irrecoverable cost |
| `Rewards.CreditWeightIs` | src/consensus/topostake.rs:226-231 | the weight is cost over reference up to the reference, one beyond it, and zero for a cost that is not positive |
| `Rewards.PathCreditTo` | src/consensus/topostake.rs:477-487 | on a repetition-free path a validator's raw score grows by its position's share, nobody else's grows |
| `Rewards.ScoreIsCostBacked` | src/consensus/topostake.rs:456-492 | over any blocks and verdicts, all raw contributions together are at most the transactions' credit weights and hence the irrecoverable cost in units of the reference; only validators receive any |
| `Rewards.StaffedEpoch` | src/consensus/topostake.rs:456-492 | if every transaction is credited for a path all of whose relays are validators, the contributions add up to at least the budget of the longest admissible path times all credit weights |
| `Rewards.RawEpochContribution` | src/consensus/topostake.rs:456-492 | the nested loops compute the raw contributions under the cached verdicts and leave the cache they produce |
| `Scores.NextScoreIs` | src/consensus/topostake.rs:413-427 | a listed validator's next score is beta times its contribution saturated against its stake plus 1 - beta times its previous score; with beta one the first alone, without a contribution the second |
| `Scores.SaturatedRange` | src/consensus/topostake.rs:494-499 | saturation never raises a contribution, in units of k, and is positive exactly for a positive contribution of a positive stake |
| `Scores.ScoreStep` | src/consensus/topostake.rs:413-432 | one epoch moves the total score at most to the average of its cost backing and the old total |
| `Scores.MassStaysBacked` | src/consensus/topostake.rs:413-432 | an epoch that spends no more than a given cost keeps the total score within what that cost backs |
| `Selection.SelectionByInterval` | src/consensus/topostake.rs:388-410 | a draw below the total selects exactly the entry whose half-open interval, as long as its weight, contains it, or the first for a zero draw; the fallback is never used |
| `Selection.SelectionByShare` | src/consensus/topostake.rs:373-405 | a random number selects an entry exactly on an interval as long as the entry's share of the total weight |
| `Selection.SelectionUnique` | src/consensus/topostake.rs:388-410 | exactly one entry is selected |
| `Selection.SelectedHasWeight` | src/consensus/topostake.rs:388-410 | the selected entry has positive weight if and only if the draw is positive or the first entry has weight |
| `Selection.SelectionsAgree` | src/consensus/pos.rs:26-37 | the two selection rules pick the same entry if and only if the draw equals no accumulated weight |
| `Selection.EtaZeroIsProofOfStake` | src/consensus/pos.rs:18-37 | without the bonus, on the same random number, TopoStake picks the proof-of-stake validator if and only if the draw hits no accumulated stake |
| `Selection.SelectByWeights` | src/consensus/topostake.rs:363-411 | no proposer if nothing weighs anything, otherwise the entry selected by the scaled random number |
| `Selection.PosSelect` | src/consensus/pos.rs:18-37 | proof of stake returns the first validator whose accumulated stake exceeds the draw and, given a positive total stake, never fails |
| `Settlement.StepBalances` | src/consensus/topostake.rs:529-542 | one call keeps the queue the unpaid rest of the plans and pays exactly the matured front |
| `Settlement.PaidOrPending` | src/consensus/topostake.rs:604-622 | over every sequence of calls, paid rewards followed by queued ones are the planned ones, and nothing is paid before it matures |
| `Settlement.PlannedSorted` | src/consensus/topostake.rs:604-622 | with non-decreasing block indices the batches mature in queue order |
| `Settlement.PaidIffMatured` | src/consensus/topostake.rs:529-542 | with non-decreasing block indices a batch has been paid if and only if it has matured |
| `Settlement.SettlementIsDelay` | src/consensus/topostake.rs:604-622 | on consecutive blocks each call pays exactly the plan of the block settlement-depth earlier |
| `Consensus.EndEpochKeepsSchedule` | src/consensus/topostake.rs:559-566 | an epoch end keeps the activation schedule |
| `Consensus.ActivationSchedule` | src/consensus/topostake.rs:434-454 | after n epoch ends in any run the active scores are those produced at epoch n - delay, none before, and the later roots are queued in order |
| `Consensus.FrozenWithinEpoch` | src/consensus/topostake.rs:363-373 | until the next epoch end every state carries the snapshot frozen from that epoch's validators and the scores then in force; selections do not refreeze it |
| `Consensus.FrozenAtFirstSelection` | src/consensus/topostake.rs:363-373 | if nothing was frozen before, the first selection with a validator freezes, and its weights stay until the next epoch end |
| `Consensus.SnapshotOf` | src/consensus/topostake.rs:269-305 | the snapshot records each validator's listed stake, and its weight is its stake share times 1 + eta times the recorded bonus, over the total |
| `Consensus.ScoreMassBounded` | src/consensus/topostake.rs:413-432 | in every run the total score is at most what the largest irrecoverable cost of one epoch backs |
| `Consensus.FrozenWeightsIsolated` | src/consensus/topostake.rs:559-566 | fewer than delay epochs after two runs part, the same validator lists and draws give the same active scores, frozen weights and elections, whatever blocks were scored or distributed and whatever was verified since |
| `Consensus.NonInterference` | src/consensus/topostake.rs:559-566 | as long as no ambiguous record can earn credit when scored before a cutoff or move money when distributed, runs that differ only in blocks of epochs from the cutoff on and in what else was verified at any time have equal elections, frozen weights and payments until cutoff + delay epochs have ended |
| `PlanExactness.PlanExact` | src/consensus/topostake.rs:308-361 | every reachable cache gives the uncached reward plan if and only if no ambiguous record of the block is long enough and owes or pays a relay |
| `ScoreExactness.EpochLead` | src/consensus/topostake.rs:456-492 | every validator's contribution is monotone in the path verdicts, strictly so for a validator inside a weighted path that only the larger list accepts |
| `ScoreExactness.CreditExact` | src/consensus/topostake.rs:456-492 | every reachable cache gives every validator the uncached contribution if and only if no ambiguous record of the epoch is long enough, carries credit weight and has a validator inside |
| `ScoreExactness.SameCreditSameScores` | src/consensus/topostake.rs:413-427 | then the next scores are the same in every two reachable caches |
| `CacheInfluence.LaterBlocksInterfere` | src/consensus/topostake.rs:517-527 | with such a record, two runs that differ only in the blocks of an epoch whose scores are not yet active pay or queue different rewards |
| `CacheInfluence.BaitExists` | src/blockchain/path.rs:493-503 | every verifying record of a fee-paying transaction with a validator behind two merged relays gives such a block |
| `Consensus.RunsSettle` | src/consensus/topostake.rs:604-622 | in every run of the whole state machine, payments are those of the settlement machine on its reward plans |
| `Consensus.PlansFollowBlocks` | src/consensus/topostake.rs:604-622 | over every run there is one plan per distributed block, under the block's index and with its miner first |
| `Consensus.RunsPayOnTime` | src/consensus/topostake.rs:604-622 | over every run whose distributed blocks have consecutive indices, a distribution pays exactly the plan of the block settlement-depth blocks below |
| `TopoStake.SumValues` | src/consensus/topostake.rs:509-510 | adding the values in any order of the keys gives the sum of the map |
| `TopoStake.TopoStakeConsensus.FreezeProposerWeights` | src/consensus/topostake.rs:269-306 | the five frozen maps are those of the specification, nothing else changes |
| `TopoStake.TopoStakeConsensus.SelectProposer` | src/consensus/topostake.rs:363-411 | takes the machine's selection step: lazy freeze, then the elected validator |
| `TopoStake.TopoStakeConsensus.UpdateScoresFromEpoch` | src/consensus/topostake.rs:413-432 | the history becomes the next scores of the current validators |
| `TopoStake.TopoStakeConsensus.ActivateScoreRootsForEpoch` | src/consensus/topostake.rs:442-454 | the loop takes exactly the due roots off the queue and activates the last of them |
| `TopoStake.TopoStakeConsensus.OnEpochEnd` | src/consensus/topostake.rs:559-566 | takes the machine's epoch step |
| `TopoStake.TopoStakeConsensus.SettleMaturedRewards` | src/consensus/topostake.rs:529-542 | the loop pays the matured front of the queue, in order, and keeps the rest |
| `TopoStake.TopoStakeConsensus.DistributeRewards` | src/consensus/topostake.rs:604-622 | takes the machine's distribution step |
| `TopoStake.NewConsensus` | src/consensus/topostake.rs:136-153 | construction is refused exactly for configurations that do not validate |
| `Config.Validate` | src/consensus/topostake.rs:44-91 | the checks in order report nothing if and only if the configuration meets every bound |
| `Attachment.ChosenUnique` | src/network/graph.rs:75-89 | each draw belongs to at most one node |
| `Attachment.DrawsPerNode` | src/network/graph.rs:75-89 | among all draws exactly as many choose a node as it has neighbours |
| `Attachment.ChooseNode` | src/network/graph.rs:75-89 | every draw below the total finds its node; the panic is unreachable |
| `Attachment.ProgressPossible` | src/network/graph.rs:96-102 | while some node is no target and none is isolated, some draw finds a new target |
| `Attachment.AttachWellFormed` | src/network/graph.rs:90-114 | adding a node keeps the graph simple and undirected, and degree list and total exact |
| `Attachment.AttachConnected` | src/network/graph.rs:90-114 | adding a node with at least one link keeps the graph connected |
| `Attachment.GrownGraph` | src/network/graph.rs:116-127 | every generated graph is simple, undirected, connected for m >= 1, and has m0 * (m0 - 1) + 2 * m * (n - m0) edge ends |
| `Attachment.NeverStuck` | src/network/graph.rs:96-102 | in every generated graph a node short of its links can still draw a new one |
| `Attachment.BANetwork.constructor` | src/network/graph.rs:50-72 | the initial graph is the clique |
| `Attachment.BANetwork.CollectTargets` | src/network/graph.rs:90-102 | a finished collection has the required number of distinct existing targets |
| `Attachment.BANetwork.LinkNewNode` | src/network/graph.rs:105-114 | the update loop, in any order of the targets, attaches the new node |
| `Attachment.BANetwork.AddNode` | src/network/graph.rs:90-114 | attaches a node to m distinct earlier ones once the numbers suffice |
| `Attachment.GenerateNetwork` | src/network/graph.rs:116-127 | a finished generation is well formed, connected for m >= 1, and of the promised size |
| `Betweenness.TreeDistances` | src/network/mod.rs:1159-1172 | the search's predecessor map is a shortest-path tree on exactly the reachable nodes |
| `Betweenness.Expand` | src/network/mod.rs:1164-1171 | one round reaches all neighbours and keeps the queue ordered by distance within one level |
| `Betweenness.Search` | src/network/mod.rs:1158-1172 | the search terminates, and its predecessors form a shortest-path tree on exactly the reachable nodes |
| `Betweenness.InteriorIsRoute` | src/network/mod.rs:1178-1187 | the nodes between source and target on the tree form a walk of exactly the target's distance |
| `Betweenness.WalkBack` | src/network/mod.rs:1178-1187 | the walk back terminates and gives one point to each node of the interior |
| `Betweenness.ScoreSource` | src/network/mod.rs:1158-1188 | one source scores the interiors of its paths to all nodes it reaches |
| `Betweenness.ApproximateBetweenness` | src/network/mod.rs:1152-1191 | every label's score counts how often its nodes lie inside the chosen shortest paths, and all scores together are the sum of distance minus one over the ordered pairs of connected nodes |
| `Betweenness.DistancesUnique` | src/network/mod.rs:1158-1172 | distances do not depend on the order of the search |
| `Betweenness.ScoresSumToDistances` | src/network/mod.rs:1152-1191 | whatever distance maps one takes, the visits counted by the scores number the sum of distance minus one |

## Left out

- Encoding.ChainValueForNodes: a character of an identity is one atom, so the UTF-8 bytes of non-ASCII identities are not spelled out.
- Evidence.TransactionPaths.CompletePendingHop: looking up and inserting a receipt is one atomic step; the key names the receiver, and a node handles its messages one after the other.
- ChainStore.RunKeepsInv: does not cover runs that empty the window, after which `add_block` checks nothing, nor a memory limit of zero.
- ChainStore.Blockchain.AddBlock: block indices, slots and block counts are unbounded, so the wrap-around of `u64` is not modelled.
- ForkSync.PanicExact: panics inside the recovery of an ECDSA signature (a text that is too short to slice, a recovery byte out of range, a signature from which no key can be recovered) are not modelled; a signature that recovers no address only fails to verify.
- Merkle.CalMerkleRoot: the panic on leaves that are not hexadecimal is a precondition.
- PaddingEval.EvaluatePaddingCase: the reported positions are a list, not the text label.
- Selection.PosSelect: the panic of drawing from an empty range when the total stake is not positive is a precondition.
- Attachment.BANetwork.CollectTargets: the rejection loop need not terminate; it is modelled up to the end of a finite list of random numbers, and only the possibility of progress is proved.
- Attachment.GenerateNetwork: an empty initial clique, and one of a single node to which others are to be linked, are excluded; there the original underflows or draws from an empty range.
- Consensus.NonInterference: over whole runs the condition is sufficient only; it is exact for each block's reward plan and each epoch's contributions, but which of the payments or elections a changed plan or contribution reaches is not characterised.
- Rounding of `f64`, NaN and infinities, and anything about the logarithm beyond the bound above.
- SHA3-256 and BLS themselves: signatures are ideal and every address has one key.
- The texts of configuration errors and the check of the protocol version's name.
- The proof-of-work and Minotaur consensus: they race threads against wall-clock time.
- The ER and WS topologies and the empirical profile, which reuse the generator above or draw edges independently.
- Message passing, timing, files, logging, command line, metrics, and the Python and devnet tooling.
