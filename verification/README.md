# OurCoin node: a verified model

OurCoin is a small proof-of-work, account-based blockchain node. This project models it in Dafny, from
the bytes of a transaction to synchronization between peers, and proves the properties that its parts
owe each other.

Values are datatypes: transactions, blocks, ledgers, block trees, pools, databases, messages. What the
node changes step by step is a class or a method with a loop: `AccountState`, `Chain`, `Mempool`,
`LocalNode`, `ChainStorage`, `CanonicalReader`, `PeerConnection`. Each such method is proved against a
function on values, and the theorems are about those functions, so they hold of every run.

Hashing, signatures and addresses are parameters (`Types.Network`, the `sha` argument, `Encoding.Unicode`);
every statement holds for all of them. Where a theorem needs the hash not to collide, it asks so only of
the finitely many strings hashed for the values it speaks of.

How the modules build on each other:

- `Types`, `Transactions`, `State`, `Emission`, `Consensus`: one ledger, one batch, one block. Atoms are
  conserved, the emission schedule is bounded, and building and validating a block agree exactly.
- `Branches`, `BlockTree`, `ChainRuns`, `ArrivalOrder`, `Chain`: branches executed from genesis, the tree of
  validated branches, fork choice, retargeting, and safety over every run and every arrival order.
- `Accounting`: what stands behind every branch: proof of work, signatures, and a balance sheet per account.
- `Sorting`, `PendingPool`, `Selection`, `Mempool`, `Miner`, `Node`, `Reorganizations`, `Returning`: the
  pending pool stays minable against the current tip through reorganizations, mining never disagrees with
  validation, and exactly what is pending after a reorganization, kept and returned.
- `Persistence`, `Storage`, `Recovery`: the acceptance-ordered log, atomic writes, crashes, replay, reindex.
- `Merkle`, `Encoding`, `Codecs`, `Frames`, `Protocol`, `Commitments`: canonical bytes decoded by a cursor,
  wire limits, and what roots and hashes commit to; `MinedBlocks`: with those hashes mining fails only for
  want of a nonce.
- `Locator`, `SyncRounds`, `PeerRequests`, `P2P`, `Session`: block locators, rounds of at most 128 blocks, the
  request state of one connection, and whole synchronization sessions from HELLO to the peer's tip.
- `OpenNetwork`, `Witnesses`: a network without real hashes and signatures, and concrete runs on it.

Four natural claims are false of the code. For each the project gives an input on which it fails and the
exact condition under which it holds:

- A Merkle root does not determine its list: (x,y,z) and (x,y,z,z) share one
  (`Merkle.RepeatedLastLeafIsInvisible`). `Merkle.RootsAgreeIff` says which lists share a root.
- Synchronizing with a heavier peer need not converge (`Witnesses.HeavierPeerIsNeverReached`):
  `SyncRounds.ConvergesIff` gives the condition, that the first batch outweighs the local tip. Otherwise
  the session ends by dropping the peer (`Session.SessionStalls`).
- A pending transaction with the last nonce of the 64-bit range is admitted and never selected
  (`Witnesses.LastNonceIsAdmittedButNotMinable`): `PendingPool.HeadIsExecutable` shows it is the only kind of
  head that does not execute, and `Mempool.Mempool.Select` counts exactly the others.
- A reorganization need not keep the pending successors of what it disconnects
  (`Witnesses.ReorganizationDropsSuccessor`): `Reorganizations.PendingIsKeptIff` says exactly which pending
  transactions stay, and by `Reorganizations.SuccessorsAreDropped` none of a sender do that has fewer
  transactions on the new branch. `Returning.DisconnectedIsPendingIff` says exactly which disconnected
  transactions are pending again.

## Model

| member | source | states |
|---|---|---|
| State.AccountState.ApplyTransactions | src/ourcoin/state.py:178-203 | a batch takes effect as a whole, with the sum of its fees, or leaves the state exactly as it was |
| State.AccountState.ApplyEach | src/ourcoin/state.py:189-199 | the loop over a working copy: fees add up, the first fault stops it |
| State.AccountState.ValidateAndApply | src/ourcoin/state.py:128-147 | a transaction that breaks a rule is refused with that rule; otherwise it is applied, and then it is unexpired and signed with its sender's own key |
| State.AccountState.ApplyValidated | src/ourcoin/state.py:149-173 | what one transfer does in place, self-transfers and the half-done state after a recipient overflow included |
| State.AccountState.CreditReward | src/ourcoin/state.py:111-126 | a reward is credited, or refused without effect |
| State.AccountState.Copy | src/ourcoin/state.py:63-68 | a copy is a separate object with the same accounts |
| State.AccountState.GetAccount | src/ourcoin/state.py:101-106 | a lookup refuses invalid addresses and gives an empty account for unknown ones |
| State.TransferConserves | src/ourcoin/state.py:149-173 | a transfer destroys its fee and nothing else, and cannot overflow the recipient while all balances fit 64 bits |
| State.BatchConserves | src/ourcoin/state.py:178-203 | over any successful batch balances fall by exactly the fees |
| State.BatchNeverOverflows | src/ourcoin/state.py:178-203 | while all balances together fit 64 bits, a batch fails only because one of its transactions breaks a rule |
| State.BatchAdvances | src/ourcoin/state.py:149-173 | nonces advance by the number of transactions sent, and exactly the batch becomes confirmed |
| State.BatchIsFresh | src/ourcoin/state.py:128-147 | a successful batch repeats nothing, confirms nothing twice, and counts nonces without a gap |
| State.ReplayIsRefused | src/ourcoin/state.py:128-147 | a confirmed transaction can never be applied again |
| Accounting.BatchIsAuthorized | src/ourcoin/transaction.py:112-161 | everything a batch executes is unexpired, of this network, of a positive amount, between valid addresses, and signed with the key its sender address belongs to |
| Accounting.BatchBalances | src/ourcoin/state.py:149-173 | a batch moves each balance by exactly what its account receives and pays, transfers to oneself included |
| Emission.ComputeBlockSubsidy | src/ourcoin/consensus.py:55-70 | the loop over eras pays the iterated-floor reward of the era, capped by the remaining supply |
| Emission.GeometricBound | src/ourcoin/consensus.py:55-70 | the geometric series over integers: everything paid plus five times the current reward stays within five first rewards |
| Emission.IssuedInClosedForm | src/ourcoin/consensus.py:55-70 | total issuance at any height in closed form |
| Emission.IssuedStaysBelowMaximum | src/ourcoin/consensus.py:55-70 | issuance stays strictly below the maximum supply at every height |
| Emission.CapNeverBinds | src/ourcoin/consensus.py:61-70 | on a chain that follows the schedule the cap never changes a subsidy |
| Emission.RoundingLosesLessThanFourAtoms | src/ourcoin/consensus.py:64-69 | the iterated floor is within four atoms of the exact 40 * (4/5)^era |
| Consensus.BuildBlockCandidate | src/ourcoin/consensus.py:99-165 | the builder returns the candidate that commits to executing its own transactions, or the first rule broken |
| Consensus.ValidateAndExecuteBlock | src/ourcoin/consensus.py:185-286 | validation returns the branch state the block leads to, or the first rule broken, and leaves the parent state alone; a block it accepts hashes to a number not above the required target |
| Consensus.MinedCandidateIsValid | src/ourcoin/consensus.py:99-286 | whatever the node builds it accepts, once the nonce search has succeeded |
| Consensus.ValidBlockIsACandidate | src/ourcoin/consensus.py:185-286 | whatever the node accepts it would itself have built |
| Consensus.ValidIffMinedCandidate | src/ourcoin/consensus.py:99-286 | validation accepts exactly the mined candidates: everything but miner, transactions, timestamp and nonce is forced |
| Consensus.BlockConserves | src/ourcoin/consensus.py:266-286 | a block adds exactly its subsidy to the balances; fees come back in the reward |
| Consensus.SettlementNeverOverflows | src/ourcoin/consensus.py:266-286 | on a solvent state the fee and reward overflow errors cannot occur |
| Branches.WorkIsBounded | src/ourcoin/chain.py:57-62 | a header counts for at least one and at most half the hash space |
| Branches.WorkIsTheFloor | src/ourcoin/chain.py:57-62 | work is 2^256 / (target + 1) rounded down, and a smaller target never counts for less |
| Branches.RetargetFollowsTheClock | src/ourcoin/chain.py:177-186 | a window on schedule leaves the target alone; a longer one never makes mining harder than a shorter one |
| Branches.RetargetIsAtMostFourfold | src/ourcoin/chain.py:163-186 | a retarget stays in range and moves the target at most fourfold either way, whatever the timestamps |
| Branches.TargetIsProportional | src/ourcoin/chain.py:163-186 | the required target after any branch in numbers: unchanged between adjustments, and at one the old target times the time taken, over 7140, rounded down, with the time kept within a quarter to four times that |
| Branches.BranchTarget | src/ourcoin/chain.py:163-186 | the same for the header at every height of a valid branch |
| Accounting.BranchIsMined | src/ourcoin/consensus.py:248-254 | every header above genesis on a valid branch hashes to a number not above its target |
| Accounting.BranchWork | src/ourcoin/chain.py:57-62 | the work of a branch is the sum over its headers of 2^256 over the target plus one, rounded down |
| Accounting.BranchIsAuthorized | src/ourcoin/transaction.py:112-161 | every transaction on a valid branch was unexpired at its height and signed with its sender's own key |
| Accounting.BranchBalances | src/ourcoin/state.py:111-173 | on every branch a balance is what the account mined and received minus what it paid |
| Accounting.BalanceFallsOnlyByOwnSignature | src/ourcoin/state.py:128-173 | no balance falls in a block without an unexpired transaction there that the account's own key has signed |
| Accounting.EveryEntryIsEarned | src/ourcoin/chain.py:255-294 | in every reachable tree every entry above genesis carries its proof of work and authorized transactions |
| Branches.BranchHeaders | src/ourcoin/consensus.py:212-239 | along a branch heights are positions, parents link, time increases and targets are the required ones |
| Branches.HeightIsNeverExhausted | src/ourcoin/chain.py:168-169 | timestamps run out before heights do: the height-exhausted errors are unreachable |
| Branches.WorkGrows | src/ourcoin/chain.py:284-294 | work strictly grows along a branch |
| Branches.WorkFitsFortyBytes | src/ourcoin/storage.py:111-114 | cumulative work always fits its 40-byte field |
| Branches.BranchConserves | src/ourcoin/chain.py:284-294 | on every branch the balances add up to the recorded supply, a function of height alone below the maximum |
| Branches.BranchNeverOverflows | src/ourcoin/consensus.py:266-286 | on every branch the reward of a block whose transactions execute can be paid |
| Branches.BranchBatchNeverOverflows | src/ourcoin/state.py:149-203 | on every branch a batch never fails by overflow |
| Branches.BranchCounts | src/ourcoin/state.py:128-173 | an account nonce is the number of transactions sent on the branch; the confirmed set is exactly the identifiers on it |
| Branches.BranchIsFresh | src/ourcoin/state.py:128-173 | the k-th transaction of a sender carries nonce k, and no identifier occurs twice on a branch |
| BlockTree.AcceptedIffBranchValid | src/ourcoin/chain.py:255-294 | a block is accepted if and only if it is new, its parent is known and its branch is valid from genesis |
| BlockTree.InsertKeepsValid | src/ourcoin/chain.py:255-321 | every entry keeps the result of executing its own branch, and no entry outweighs the tip |
| BlockTree.NewEntryIsLinked | src/ourcoin/chain.py:255-294 | heights make the parent links well-founded; no entry already there changes |
| BlockTree.SwitchIsLowestCommonAncestor | src/ourcoin/chain.py:215-253 | the ancestor is the lowest common one, and the two lists lead exactly from the old branch to the new |
| Chain.Chain.constructor | src/ourcoin/chain.py:68-91 | a new chain holds genesis alone and satisfies the tree invariant |
| Chain.Chain.CopyOf | src/ourcoin/chain.py:122-128 | a copy holds the same entries and tip |
| Chain.Chain.AncestorAtHeight | src/ourcoin/chain.py:152-161 | the walk ends on the block of that height on the same branch |
| Chain.Chain.ExpectedTargetForChild | src/ourcoin/chain.py:163-186 | the required target of a child, retargeted every 120 blocks over its own branch |
| Chain.Chain.BuildCandidate | src/ourcoin/chain.py:188-213 | a candidate on any known parent, built on that parent's state |
| Chain.Chain.ReorganizationPaths | src/ourcoin/chain.py:215-253 | the three-loop walk terminates without running off a branch and computes the switch |
| Chain.Chain.CheckBlock | src/ourcoin/chain.py:255-294 | the entry a block would get from its own parent's branch, or why it is refused |
| Chain.Chain.AddBlock | src/ourcoin/chain.py:255-321 | adds the block, switches only to strictly more work, reports the switch; a rejection changes nothing; what is accepted carries its proof of work |
| Chain.Chain.ActiveChain | src/ourcoin/chain.py:323-345 | lists the active branch from genesis to tip |
| ChainRuns.TipIsFirstHeaviest | src/ourcoin/chain.py:255-321 | over every run the tip has the greatest work of all entries and is the first accepted with it |
| ChainRuns.TipWorkNeverDecreases | src/ourcoin/chain.py:296-308 | tip work never falls, and rises exactly when the tip moves |
| ChainRuns.EveryEntryIsSound | src/ourcoin/chain.py:284-294 | in every reachable tree each snapshot is solvent, counts its nonces, holds distinct identifiers and bounded work |
| ChainRuns.OrderDoesNotMatter | src/ourcoin/chain.py:255-321 | trees over the same blocks agree on all records and states, and on the tip unless the maximum is tied |
| ChainRuns.RunsWithTheSameBlocksAgree | src/ourcoin/chain.py:163-321 | two runs that accepted the same blocks agree on all records, states and tip work, and on the tip unless the maximum is tied |
| ArrivalOrder.HeldIffInOrder | src/ourcoin/chain.py:255-321 | after any offers, valid or not, the branches in the tree are exactly the valid ones that occur in order among the offers, if tip hashes tell the offered valid branches apart |
| ArrivalOrder.EntriesAgreeIff | src/ourcoin/chain.py:255-321 | two nodes end up with the same entries if and only if the same valid branches were offered to them in order |
| ArrivalOrder.OrderOfOffersDoesNotMatter | src/ourcoin/chain.py:255-321 | so two parents-first orders of the same offers lead to the same entries and tip work, and to the same tip unless the maximum is tied |
| ArrivalOrder.HashesSeparateBranches | src/ourcoin/block.py:160-198 | with the node's own hashes tip hashes do tell offered valid branches apart, unless strings hashed for two of them collide |
| ArrivalOrder.RepeatedCopyEndsNoBranch | src/ourcoin/merkle.py:24-26 | a copy with its last transaction repeated may share root and hash without a collision, but no valid branch ends in it |
| ChainRuns.SameBranchSameVerdict | src/ourcoin/chain.py:255-294 | whether a block is accepted depends on its branch alone |
| ChainRuns.UpdateNamesPreviousTip | src/ourcoin/storage.py:521-528 | the tip held before an update can be read off the update |
| ChainRuns.ExtendingTheTipWins | src/ourcoin/chain.py:296-321 | a block on the tip always becomes the tip and disconnects nothing |
| PendingPool.AdmissionKeepsAgreement | src/ourcoin/mempool.py:66-113 | admission keeps the pool in agreement with the tip |
| PendingPool.AdmittedNonceIsNext | src/ourcoin/mempool.py:89-104 | what is admitted carries the sender's next free nonce; slots are taken exactly below it |
| PendingPool.SenderIsCovered | src/ourcoin/mempool.py:93-109 | a sender has at most 64 pending transactions, together covered by the confirmed balance |
| PendingPool.HeadIsExecutable | src/ourcoin/mempool.py:145-191 | a sender's head executes if and only if its nonce is not the last of its range |
| PendingPool.HeadLeavesAgreement | src/ourcoin/mempool.py:145-191 | executing a head leaves a pool that agrees with the new state |
| PendingPool.SomeHeadIsExecutable | src/ourcoin/mempool.py:145-191 | while anything minable is pending, some head executes |
| PendingPool.AdmittedIffSurvives | src/ourcoin/mempool.py:129-143 | revalidation keeps a transaction if and only if its whole run up to it is present, valid, unconfirmed and paid for |
| PendingPool.RevalidationIsExact | src/ourcoin/mempool.py:129-143 | the result does not depend on the order of re-admission |
| Mempool.Mempool.constructor | src/ourcoin/mempool.py:20-22 | a new pool is empty |
| Mempool.Mempool.SenderTransactions | src/ourcoin/mempool.py:42-50 | lists exactly a sender's pending transactions and what they reserve |
| Mempool.Mempool.NextNonce | src/ourcoin/mempool.py:52-64 | the account nonce moved past the pending nonces that continue it, up to the first gap, for any pool; the end of the range is reported |
| Mempool.Mempool.Add | src/ourcoin/mempool.py:66-113 | admits exactly what the rules allow and reports the first rule broken; a refusal changes nothing |
| Mempool.Mempool.Remove | src/ourcoin/mempool.py:115-119 | removes one transaction from both maps |
| Mempool.Mempool.RemoveConfirmed | src/ourcoin/mempool.py:121-123 | removes every listed transaction |
| Mempool.Mempool.Clear | src/ourcoin/mempool.py:125-127 | empties both maps |
| Mempool.Mempool.Transactions | src/ourcoin/mempool.py:30-40 | lists the pool once each, by sender, then nonce, then identifier |
| Mempool.Mempool.InNonceOrder | src/ourcoin/mempool.py:42-50 | one sender's pending transactions in the order of their nonces |
| Mempool.Mempool.Revalidate | src/ourcoin/mempool.py:129-143 | keeps exactly the survivors, agrees with the new tip, and returns exactly what was dropped |
| Mempool.Mempool.Select | src/ourcoin/mempool.py:145-191 | for any pool, each round picks the open head that executes and is outranked only by heads that fail, whose senders are blocked; on a pool in agreement these are min(limit, minable) transactions, executable as one batch, and with room for all exactly the minable ones; no other head that executed at its turn offered a higher fee, nor the same fee under a smaller identifier |
| Mempool.PickHasHighestFee | src/ourcoin/mempool.py:176-190 | for any pool a round picks the highest fee among the open heads that execute, and of equal fees the smallest identifier |
| Selection.GreedyPicksHighestFee | src/ourcoin/mempool.py:176-190 | the same for every position of a greedy selection, the one a mined block holds included |
| Mempool.SelectIsAFunction | src/ourcoin/mempool.py:145-191 | what is promised of a selection determines it: the order in which senders are iterated never shows |
| Mempool.Mempool.EligibleHeads | src/ourcoin/mempool.py:166-174 | the heads of all senders not blocked |
| Mempool.Mempool.ApplyFirst | src/ourcoin/mempool.py:179-190 | applies the first eligible head that executes, and blocks exactly the senders of the heads tried before it |
| Mempool.Mempool.Grouped | src/ourcoin/mempool.py:159-161 | groups the pool by sender and nonce, each transaction once |
| Selection.ProgressGoesOn | src/ourcoin/mempool.py:145-191 | one round of the selection loop keeps pool and working state in agreement |
| Selection.SelectionIsComplete | src/ourcoin/mempool.py:145-191 | the loop ends early only when nothing minable is left |
| Sorting.InsertionSort | src/ourcoin/mempool.py:33-40 | sorting neither loses nor invents an item |
| Sorting.LexLessIff | src/ourcoin/mempool.py:177 | identifiers compare by the byte at their first difference |
| Node.LocalNode.InMemory | src/ourcoin/node.py:34-45 | a new node satisfies the whole-node invariant |
| Node.LocalNode.OpenPersistent | src/ourcoin/node.py:47-60 | opening a database gives the chain it holds, with an empty pool, or its fault |
| Node.LocalNode.SubmitTransaction | src/ourcoin/node.py:72-80 | admission against the tip for the next height; the invariant is kept |
| Node.LocalNode.Send | src/ourcoin/node.py:82-113 | what is sent pays the recipient asked for the amount and the fee asked for, carries the next nonce and is never refused for a gap or a conflict |
| Node.LocalNode.NextTransaction | src/ourcoin/node.py:95-111 | a transaction of the recipient, amount and fee asked for, with the nonce after the pending run, carrying the wallet's own key and its signature of exactly these fields, which verifies |
| Node.LocalNode.SubmitBlock | src/ourcoin/node.py:115-156 | adds, persists and reconciles; a failed write or a rejected block changes nothing |
| Node.LocalNode.ReconcilePool | src/ourcoin/node.py:125-156 | confirmed out, the rest revalidated, disconnected offered again: the pool agrees with the new tip |
| Node.LocalNode.Mine | src/ourcoin/node.py:158-187 | mining finds no nonce, or mines a block whose hash a different known block already has, or extends the tip with a greedy selection for the miner and at the time asked for, by default a minute after the tip; selection, building, search and validation never disagree |
| Node.LocalNode.FindBlock | src/ourcoin/node.py:171-186 | selection always builds, whatever the pool holds |
| Node.MinedBlockWins | src/ourcoin/node.py:158-187 | a mined candidate becomes the tip without reorganization |
| Node.ReconciledFits | src/ourcoin/node.py:125-156 | reconciliation makes any consistent pool agree with any tip |
| Node.EveryRunKeepsThePoolMinable | src/ourcoin/node.py:72-187 | over every run each pending transaction is unexpired and signed with its sender's own key, unconfirmed, gapless, within 64 and covered |
| MinedBlocks.MinedBlockIsNew | src/ourcoin/node.py:158-187 | with the node's own hashes a mined block is not already known, unless strings of its branch and of that known branch collide |
| MinedBlocks.MiningOnlyRunsOutOfNonces | src/ourcoin/node.py:158-187 | so mining on a valid chain fails only for want of a nonce, and then changes nothing |
| Reorganizations.KeptByReconciliationIff | src/ourcoin/node.py:125-156 | for any tree and update, reconciliation keeps a transaction that is not itself disconnected if and only if it survives revalidation without the connected ones |
| Reorganizations.PendingIsKeptIff | src/ourcoin/node.py:115-156 | when an accepted block moves the tip, a pending transaction is kept if and only if its whole run is pending, valid, unconfirmed and paid for at the new tip |
| Reorganizations.SuccessorsAreDropped | src/ourcoin/node.py:138-155 | if the new branch has fewer transactions of a sender, every pending one of that sender is dropped, because revalidation runs first |
| Returning.DisconnectedIsPendingIff | src/ourcoin/node.py:133-156 | unless the pool ends up full, a transaction of the branch that is left is pending afterwards if and only if the new account's nonce is at most its own and less than 64 below, every transaction of its sender from there up to it is valid and unconfirmed at the new tip, and the balance pays for them all |
| Returning.PoolAfterTipMoved | src/ourcoin/node.py:115-156 | the whole pool after a block that moved the tip, room limits included: the survivors, the transactions of the old branch that come back in its order, and nothing else |
| Witnesses.ReorganizationDropsSuccessor | src/ourcoin/node.py:138-155 | a run and a block that drop a payment although the one before it is pending again at once |
| Witnesses.LastNonceIsAdmittedButNotMinable | src/ourcoin/mempool.py:66-113 | a pool and a ledger with which a transaction of the last nonce is admitted, though no ledger ever executes it at any height |
| Miner.MineBlock | src/ourcoin/miner.py:11-23 | the first nonce of the window whose hash as a number is not above the target, or that every one is above it |
| Storage.ChainStorage.Initialize | src/ourcoin/storage.py:251-339 | a new database opens as the genesis chain |
| Storage.ChainStorage.PersistChainUpdate | src/ourcoin/storage.py:530-572 | one atomic write of the row and, if the tip moved, of all derived tables; a failure writes nothing |
| Storage.ChainStorage.ReplaceDerivedState | src/ourcoin/storage.py:391-418 | rebuilds the derived tables of the tip; no insertion meets a duplicate key |
| Storage.ChainStorage.ReplayBlocks | src/ourcoin/storage.py:574-604 | replays the log in acceptance order or reports the integrity fault |
| Storage.ChainStorage.ValidateDerivedState | src/ourcoin/storage.py:635-679 | accepts exactly the derived tables of the replayed tip |
| Storage.ChainStorage.LoadChain | src/ourcoin/storage.py:681-687 | loads exactly the databases whose log replays and whose derived tables match |
| Storage.ChainStorage.Reindex | src/ourcoin/storage.py:723-761 | rewrites all derived columns and tables from the raw log, atomically; a log that does not replay or a failed write leaves the database as it was |
| Persistence.PersistingRefines | src/ourcoin/storage.py:530-572 | writing what adding a block did always succeeds and leaves a database that loads as the new tree |
| Persistence.LoadableIsExact | src/ourcoin/storage.py:574-679 | a database that loads lists exactly the entries of its tree and holds exactly its derived state |
| Persistence.LoadedTables | src/ourcoin/storage.py:391-418 | the derived tables of any database that loads, said of its active branch: the path by height, the accounts of executing it, the issued supply, each transaction under its block |
| Persistence.LoadedRows | src/ourcoin/storage.py:574-604 | the rows of any database that loads: block, parent, height, and the work, supply and identifiers of its own branch |
| Persistence.InitialDatabaseLoads | src/ourcoin/storage.py:251-339 | the initial database loads as the genesis tree |
| Recovery.StepStaysInStep | src/ourcoin/storage.py:530-604 | every event keeps disk and memory equal to the tree of a node that never crashed |
| Recovery.EveryRunIsCrashSafe | src/ourcoin/node.py:115-124 | after any interleaving of writes, failures, crashes and reopenings the disk opens as the tree over exactly the durable blocks, ties included |
| Recovery.ReopeningRecovers | src/ourcoin/storage.py:681-687 | reopening gives that tree back |
| Recovery.ReindexSucceedsIffLogReplays | src/ourcoin/storage.py:723-761 | reindexing succeeds if and only if the raw log replays on this network |
| Recovery.ReindexRestores | src/ourcoin/storage.py:723-761 | from arbitrary derived contents it restores the very database that loads, and changes nothing when applied again |
| Recovery.ReindexingRecovers | src/ourcoin/storage.py:723-761 | after any history and any damage to derived tables and columns, reindexing restores the disk of that history, which opens as the tree over exactly the durable blocks |
| Merkle.MerkleRoot | src/ourcoin/merkle.py:16-32 | the padding loop computes the root; a leaf of another length is refused |
| Merkle.SmallRoots | src/ourcoin/merkle.py:16-32 | the roots of up to three leaves in bytes: left before right, an odd last node paired with itself |
| Merkle.RootsAgreeIff | src/ourcoin/merkle.py:16-32 | two lists share a root if and only if they fill the same bottom row |
| Merkle.DistinctLeavesAreCommitted | src/ourcoin/merkle.py:16-32 | without repeated leaves the root determines the list, length included |
| Merkle.RepeatedLastLeafIsInvisible | src/ourcoin/merkle.py:24-26 | (x,y,z) and (x,y,z,z) share a root: why distinctness is needed |
| Merkle.FilledPair | src/ourcoin/merkle.py:24-30 | which leaves meet in one inner node once odd nodes are repeated |
| Merkle.HeightsAgree | src/ourcoin/merkle.py:16-32 | trees of different heights have different roots unless a leaf is itself a node |
| Commitments.ComputeStateRoot | src/ourcoin/state.py:85-99 | sorting, hashing and rooting the accounts gives the state root, independent of map order |
| Commitments.DomainsAreSeparate | src/ourcoin/block.py:17-18 | no string is hashed for two purposes: transactions, rewards, headers, accounts and Merkle nodes never share one |
| Commitments.BodyIsCommitted | src/ourcoin/block.py:187-198 | equal transaction roots mean the same reward and the same transactions in the same order |
| Commitments.StateIsCommitted | src/ourcoin/state.py:85-99 | equal state roots mean the same accounts, balances and nonces |
| Commitments.BlockHashIsInjective | src/ourcoin/block.py:160-198 | blocks with the same hash are the same block |
| Commitments.TipHashCommitsToBranch | src/ourcoin/block.py:160-162 | valid branches with the same tip hash are equal, block for block |
| Commitments.StateRootsOfBranches | src/ourcoin/state.py:85-99 | valid branches with equal state roots hold the same accounts |
| Encoding.NumberSurvives | src/ourcoin/encoding.py:17-38 | big-endian bytes decode to the number they encode |
| Encoding.BytesSurvive | src/ourcoin/encoding.py:95-96 | every byte string is the encoding of the number it decodes to |
| Encoding.FourBytes | src/ourcoin/encoding.py:17-38 | the most significant byte comes first |
| Encoding.BytesLayout | src/ourcoin/encoding.py:41-48 | a byte field is its length in four bytes and then its bytes |
| Encoding.EncodableRanges | src/ourcoin/encoding.py:17-38 | each width refuses exactly what is out of its range |
| Encoding.UnsignedLaw | src/ourcoin/encoding.py:95-108 | an integer is read exactly from its own encoding |
| Encoding.BytesLaw | src/ourcoin/encoding.py:41-48 | a byte field is read exactly from its own encoding, within its limit |
| Encoding.TextLaw | src/ourcoin/encoding.py:51-57 | a text is read exactly if it is UTF-8 in form C and within its limit |
| Encoding.SequenceLaw | src/ourcoin/encoding.py:60-65 | a sequence is read exactly from its own encoding, within both limits |
| Encoding.CanonicalReader.Take | src/ourcoin/encoding.py:88-93 | takes that many bytes or fails on truncated data |
| Encoding.CanonicalReader.ReadUnsigned | src/ourcoin/encoding.py:95-96 | the cursor follows the integer parser |
| Encoding.CanonicalReader.ReadBytes | src/ourcoin/encoding.py:110-115 | the cursor follows the byte-field parser |
| Encoding.CanonicalReader.ReadText | src/ourcoin/encoding.py:117-125 | the cursor follows the text parser |
| Encoding.CanonicalReader.ReadSequence | src/ourcoin/encoding.py:127-138 | the cursor follows the sequence parser |
| Encoding.CanonicalReader.IsFinished | src/ourcoin/encoding.py:140-142 | trailing bytes are noticed |
| Codecs.TransactionCodec | src/ourcoin/transaction.py:51-104 | a transaction decodes exactly from the one byte string that encodes it |
| Codecs.SignatureComesLast | src/ourcoin/transaction.py:51-70 | the encoding is the signing bytes and then the signature |
| Codecs.SigningBytesCoverTheRest | src/ourcoin/transaction.py:51-67 | the signature covers every other field: equal signing bytes mean equal transactions up to the signature |
| Codecs.TransactionFromBytes | src/ourcoin/transaction.py:80-104 | the reader-driven decoder computes that decoding |
| Codecs.RewardCodec | src/ourcoin/block.py:52-83 | a reward decodes exactly from its own encoding |
| Codecs.RewardFromBytes | src/ourcoin/block.py:64-83 | the reader-driven decoder computes that decoding |
| Codecs.HeaderCodec | src/ourcoin/block.py:103-158 | a header decodes exactly from its own encoding, hash and target lengths included |
| Codecs.HeaderFromBytes | src/ourcoin/block.py:120-158 | the reader-driven decoder computes that decoding |
| Codecs.TargetLaw | src/ourcoin/block.py:38-41 | a target is 32 bytes of a number in range, exactly |
| Protocol.WorkCodec | src/ourcoin/p2p_protocol.py:74-86 | cumulative work is 40 bytes of a positive number, exactly |
| Protocol.HelloCodec | src/ourcoin/p2p_protocol.py:185-224 | a handshake decodes exactly from its own encoding |
| Protocol.HelloFromBytes | src/ourcoin/p2p_protocol.py:201-224 | the reader-driven decoder computes that decoding |
| Protocol.LocatorCodec | src/ourcoin/p2p_protocol.py:231-255 | a locator of 1 to 64 hashes decodes exactly from its own encoding |
| Protocol.LocatorFromBytes | src/ourcoin/p2p_protocol.py:238-255 | the reader-driven decoder computes that decoding |
| Protocol.SummaryCodec | src/ourcoin/p2p_protocol.py:264-291 | a chain summary decodes exactly from its own encoding |
| Protocol.SummaryFromBytes | src/ourcoin/p2p_protocol.py:274-291 | the reader-driven decoder computes that decoding |
| Protocol.BlockCodec | src/ourcoin/p2p_protocol.py:294-325 | a block decodes exactly from its own encoding; all inner size limits hold by themselves |
| Protocol.BlockFromBytes | src/ourcoin/p2p_protocol.py:307-325 | the reader-driven decoder computes that decoding |
| Protocol.BlockLength | src/ourcoin/p2p_protocol.py:25-27 | a well-formed block stays within every limit of the wire, the 8 MiB frame included |
| Protocol.AcceptedBlockTravels | src/ourcoin/p2p_protocol.py:294-325 | every block that execution accepts can be framed, sent and decoded unchanged |
| Protocol.BranchBlockTravels | src/ourcoin/p2p_protocol.py:294-325 | the same for every block of every valid branch |
| Protocol.BranchSummaryTravels | src/ourcoin/p2p_protocol.py:264-291 | the summary of every valid branch can be sent and decoded unchanged |
| Protocol.ValidTransactionTravels | src/ourcoin/transaction.py:112-161 | a transaction that passes validation is encodable within its limit and decodes unchanged |
| Frames.FrameCodec | src/ourcoin/p2p_protocol.py:95-142 | a frame decodes exactly from its own encoding |
| Frames.OtherVersionsAreRecognized | src/ourcoin/p2p_protocol.py:127-130 | a frame of another protocol version is reported as such |
| Frames.StreamsKeepFrames | src/ourcoin/p2p_protocol.py:145-172 | frames written one after the other are read back one by one |
| Locator.ComputeLocator | src/ourcoin/p2p.py:527-540 | the loop lists the scheduled heights from the tip down and ends with genesis |
| Locator.LocatorShape | src/ourcoin/p2p.py:527-540 | 1 to 64 heights, strictly descending from tip to genesis |
| Locator.MatchIsClose | src/ourcoin/p2p.py:527-540 | the first match is the fork itself up to depth 9 and less than twice as deep beyond, below 2^55 blocks |
| SyncRounds.LocatorFindsTheMatch | src/ourcoin/p2p.py:554-561 | the peer finds the first listed height at or below the fork, and never no common block |
| SyncRounds.RoundOutcome | src/ourcoin/p2p.py:554-591 | after one round the batch is known, and its last block is the tip if and only if it outweighs the old tip |
| SyncRounds.ReachesTheTipInTime | src/ourcoin/p2p.py:566-618 | a node n blocks behind reaches a fixed tip after ceil(n / 128) rounds and not before |
| SyncRounds.OutweighingConverges | src/ourcoin/p2p.py:554-618 | from a fork, how many rounds it takes if the first batch outweighs the local tip |
| SyncRounds.OtherwiseStalls | src/ourcoin/p2p.py:554-618 | if it does not, every later round sends the same locator and moves nothing |
| Witnesses.HeavierPeerIsNeverReached | src/ourcoin/p2p.py:554-618 | two reachable trees with which no number of rounds leads to the heavier one |
| SyncRounds.ConvergesIff | src/ourcoin/p2p.py:527-618 | synchronization with a fixed heavier peer converges if and only if its first batch outweighs the local tip |
| SyncRounds.HashesShareHistory | src/ourcoin/block.py:160-162 | absent a collision, a hash known to both nodes stands for the same branch |
| Session.AnswerToWaiting | src/ourcoin/p2p.py:554-618 | an answer is one round; it ends the session, drops the peer if it brought nothing, and is followed by the next request otherwise |
| Session.SessionConverges | src/ourcoin/p2p.py:227-618 | from HELLO on, exactly as many requests as there are batches lead to the peer's tip, with nothing open |
| Session.SessionStalls | src/ourcoin/p2p.py:227-618 | if the first batch does not outweigh the local tip, the peer is dropped after at most two answers |
| PeerRequests.FlagFollowsMessages | src/ourcoin/p2p.py:294-317 | the flag of a connection says that a request was written and not answered, and none is written before the answer |
| PeerRequests.AtMostOneOutstanding | src/ourcoin/p2p.py:294-317 | over every run at most one GET_BLOCKS message is unanswered |
| PeerRequests.ProgressBetweenRequests | src/ourcoin/p2p.py:593-618 | between two requests to a peer that claimed more work, an accepted block arrived or local work rose |
| PeerRequests.WaitingOrProgress | src/ourcoin/p2p.py:542-618 | a request is open without effect, or there has been progress, or the connection is closed |
| P2P.PeerConnection.BeginBlockRequest | src/ourcoin/p2p.py:294-300 | opens a request unless one is open |
| P2P.PeerConnection.CancelBlockRequest | src/ourcoin/p2p.py:302-305 | forgets the request |
| P2P.PeerConnection.NoteAcceptedBlock | src/ourcoin/p2p.py:307-309 | counts only while a request is open |
| P2P.PeerConnection.FinishBlockRequest | src/ourcoin/p2p.py:311-317 | returns what the request brought and closes it |
| P2P.PeerConnection.UpdateAdvertisedSummary | src/ourcoin/p2p.py:319-329 | refuses a summary before HELLO or with less work than claimed before |
| P2P.P2PNode.LocatorOfChain | src/ourcoin/p2p.py:527-540 | the locator of the active chain |
| P2P.P2PNode.RequestBlocks | src/ourcoin/p2p.py:542-552 | sends the locator unless a request is open; a failed write cancels |
| P2P.P2PNode.FindCommon | src/ourcoin/p2p.py:556-561 | the first locator hash that is on the active chain, by a dictionary of positions |
| P2P.P2PNode.SendBlocks | src/ourcoin/p2p.py:554-573 | answers with at most 128 blocks after the first common one, and the summary; refuses without a common block |
| P2P.P2PNode.CompleteHandshake | src/ourcoin/p2p.py:507-518 | registers a peer exactly if it is of this network and genesis, is not the node itself and has no open connection |
| P2P.P2PNode.HandleHello | src/ourcoin/p2p.py:227-233 | a HELLO that may not join ends the connection; any other is followed by the locator exactly if the peer claims more work |
| P2P.P2PNode.HandleBlock | src/ourcoin/p2p.py:575-591 | a peer's block is one attempt on the tree and one step of the request machine, which decides whether a locator is written, the block relayed or a rejection sent, and keeps the node invariant |
| P2P.P2PNode.HandleSyncComplete | src/ourcoin/p2p.py:593-618 | a summary is one step of the request machine: contradiction, end, stall, or the locator of the next request |
## Left out

- Sockets, asynchronous scheduling, locks, timeouts, keepalive, loopback checks, connection counts, the rate limiter and host bans: I/O around the modelled protocol. Whether a write succeeds and whether a penalty reaches the disconnect threshold are inputs of the handlers.
- The recipients of relayed blocks and transactions, and the handling of TRANSACTION, PING, PONG and REJECT messages: no state beyond what `Node.LocalNode.SubmitTransaction` already covers.
- Removing a closed connection from the table of node identifiers, and the score a reconnecting peer inherits: they belong to the connection's task, not to its messages.
- P2P.P2PNode.HandleBlock: takes the outcome of penalties as an input, because scores are shared between connections and decay with time.
- SQLite itself: schema text, PRAGMAs, foreign keys, file paths, the unique index on canonical hashes. A database is a value that is replaced atomically or not at all; its rows hold decoded blocks.
- Storage.ChainStorage.LoadChain: does not model corrupted bytes inside a row beyond the checks a row makes on its own hash, parent, height, identifiers and root.
- SHA-256, Ed25519, address Base32 with its checksum, UTF-8 (section 3 of RFC 3629) and normalization form C (Unicode Standard Annex 15): parameters, with `Protocol.WireNetwork` stating that addresses and the network identifier are short canonical texts.
- The proof of work of the concrete genesis vector: assumed as `Branches.GenesisMined` where it matters.
- Commitments.ComputeStateRoot: asks that every address can be encoded, which every valid address can.
- Texts of more than 2^32 - 1 bytes: the type `Types.Text` excludes them, as their length prefix does.
- The account-state constructor's check of foreign snapshots: the model builds states only from valid ones.
- Encrypted wallets, the command line, amount parsing and account views: no consensus state.
- Run-time type checks of arguments: they disappear in a typed model.
- Generating node identifiers and keepalive nonces: random choices that nothing else depends on.
