# Verified model of the siotchain node core

This project models, in Dafny, the parts of the siotchain node whose correctness is hardest to see by reading one
function: choosing between forks and keeping the number index in step, uncle and header rules, executing messages and
blocks, assembling blocks, the transaction pool, handing transactions to new peers, the parallel nonce verifier, and the
migration of the chain database to sequential keys.  For each of them it states what the code promises over every input,
every run or every interleaving, and proves it.  Where the code breaks a promise one would expect, the project has a
concrete input on which it fails and states exactly when the promise holds; where the code only differs from its comments,
the model follows the code.

`dafny verify dfyconfig.toml` verifies everything.  Nothing here runs the node.

## How the model is built

* **Chain data** (`Types`, `Ancestry`).  A hash is the value it was computed from, wrapped in a constructor, so hashing is
  injective and no header is its own ancestor.  A header carries its transactions, its uncles and the accounts after
  it, because its roots commit to them; a header therefore stands for a block.  `Branch(g, h)` is the line of ancestors from genesis to `h`.
* **Fork choice** (`ForkChoice`, `HeaderChain`, `BlockChain`, `TxIndex`, `ChainExamples`).  `ForkChoice` is a state machine over
  what is stored and which header is the head.  The classes `HeaderChain` and `BlockChain` update their maps, caches and
  heads in place, loop by loop, and are proved to refine a step of that machine; theorems about whole runs are proved on it.
  The coin that settles equal total difficulties is an input.
* **Rules** (`HeaderRules`, `Uncles`, `UncleSelection`, `BlockAssembly`).  Header validation, the miner's header and gas limit, uncle
  verification, the miner's choice of uncles, and the whole round from the head block to the judgement of another node.
* **Execution** (`WorldState`, `StateTransition`, `StateProcessor`, `Miner`, `Admission`, `ExecutionExamples`).  Accounts are a map; the state
  database, the gas pool and a running transition are objects.  `Execution` is the reference: a sequence of states through which
  the transactions of a block go.
* **Pool** (`NonceHeap`, `SortedTxs`, `TxSortedMap`, `TxList`, `PoolLists`, `PoolSizes`, `Eviction`, `Promotion`, `Overflow`, `TxPool`,
  `PoolExamples`).  From Go's container/heap on a slice, through the sorted map with its heap and cache, to the pool with its
  two sets of lists.  `Promotion` and `Overflow` say as functions of the two lists of an account what queueing, promotion,
  demotion, removal, expiry and overflow make of them; the methods of `TxPool` are proved equal to these functions for all
  accounts at once.
* **Concurrency** (`TxSync`, `NoncePipeline`).  Goroutines and channels are transition systems; theorems hold in every
  interleaving.
* **Database keys** (`KeyLayout`, `KeyMigration`, `KeyConversion`, `SequentialKeys`).  Keys are byte strings.  Which writes of
  the migration fail and when it is asked to stop are inputs.

Inputs stand for what the model cannot see: the clock, random choices, proof-of-work verification, the decoding of a stored
header, the derivation of a created account's address, the iteration order of Go maps, the eviction of cache entries,
interruptions, and which database writes fail.

## What the code does differently from what one expects

The examples of the chain, the pool and the migration are runs of the modelled operations from a fresh chain, pool or database.

* `HeaderChain.SetHead` may leave headers stored whose parents are gone; `RewindOrphans` shows it, the contract says exactly when.
  Importing a child of such a header dereferences a missing ancestor (blockchainCore/headerchain.go:166-171); `RewindPanics` shows
  it, and `WriteHeader` says that it happens exactly if the header is preferred and some ancestor is neither stored nor on the
  head's line.
* A heavier but shorter branch leaves stale number entries above the head; `ShorterHeadLeavesStale` shows it and `WriteBlock` says
  exactly when.  With the difficulty the validator prescribes it cannot happen (`RunHeightNeverDrops`, `BlockChain.InsertChain`).
* After a reorganisation over more than one block the head header stays on the lowest block of the new branch, and writing the
  head again does not mend it; `HeadHeaderLags` and `HeadHeaderStillLags` show it.  `WriteBlock` and `HeadHeaderFollows` say exactly
  when the head header is the head block: when the new branch is one block, or the block was on the old line and the head header
  stood on it already.
* The queue may end above its limit of 1024.  When a nonce is in both lists of an account, dropping the waiting transaction
  also removes the executable one and sends those above it to the queue, where they are not counted
  (blockchainCore/tx_pool.go:445-455, 594-612).  `BatchOverflows` shows it with replacements for two executable nonces.
  `DropOverflow` and `PromoteExecutables` say exactly when the limit is met, and that it is whenever nothing waits at an executable
  nonce.
* The comment in the queue-overflow code speaks of dropping the oldest entries (blockchainCore/tx_pool.go:583); the code empties
  the accounts from the latest heartbeat back, and cuts at most one in part (`Overflowed`, `CutFromLatest`).  The model follows the code.
* Removing the pending transaction with the lowest nonce takes its successors out of all lists, although they stay known
  (blockchainCore/tx_pool.go:449-452); `RemovalForgets` shows it and `TxPool.RemoveTx` gives the lists and the known set in every case.
* Promoting a replacement records the nonce after it, even if higher ones are executable (blockchainCore/tx_pool.go:375), so that
  the transaction that comes next keeps waiting; `ReplacementStalls` shows it.  `RecordedDrops` says exactly when the recorded nonce
  drops and `RecordedNext` exactly when it is the one after the last executable transaction.
* The miner may include a block with its own block's parent as an uncle, which verification refuses although both headers are
  valid; `SiblingChosen` shows it and `ChosenAcceptedIff` says exactly when verification accepts.
* The key migration overwrites a canonical hash written in the new layout with a stale old one; `StaleHashReturns` shows it
  and `ConvertedSameIff` says exactly when a finished migration changes no answer.
* A failed transaction that passed the gas purchase keeps its gas out of the miner's pool, so that one that fits into the block may
  be refused; `FailureTakesGas` shows it, `Work.CommitTransaction` gives the pool exactly and `LostGasDecides` says exactly when that
  changes what becomes of a transaction.
* A block is accepted whatever state root its header names (blockchainCore/block_validator.go:116-119); `WrongRootAccepted` shows it
  and `AssembledBlockAccepted` says what acceptance of an assembled block does depend on.
* A creation at the sender's own address would add its value to the sum of balances, because the account is replaced before the
  value is taken from it (blockchainCore/execution.go:120-128); `SelfCreationAdds` shows it and `StateTransition.TransitionDb` says
  that the sum changes in no other case.  Address hashing makes it a matter of chance; blocks are stated to conserve the sum if it
  does not happen.

## Model

| member | source | states |
|---|---|---|
| `Ancestry.BranchesMeet` | blockchainCore/headerchain.go:160-172 | two ancestor lines that agree at one number agree at all numbers below, which is why the walk back may stop |
| `Ancestry.TotalDifficultyStep` | blockchainCore/headerchain.go:132-143 | the total difficulty of a header is its parent's plus its own difficulty |
| `ForkChoice.StepWellFormed` | blockchainCore/headerchain.go:126-193 | an import keeps every stored header linked to genesis through stored parents |
| `ForkChoice.ClosedIffParents` | blockchainCore/headerchain.go:126-193 | all ancestors are stored if and only if all parents are |
| `ForkChoice.RunAppend` | blockchainCore/headerchain.go:289-307 | a run may be prolonged by one import, which acts on its final state |
| `ForkChoice.RunHeadHeaviest` | blockchainCore/headerchain.go:126-193 | after every run, whatever the coins, no stored header is heavier than the head, nothing stored is lost and the head's total difficulty has not dropped |
| `ForkChoice.RunFromGenesis` | blockchainCore/headerchain.go:126-193 | from a fresh chain the head is a heaviest of all headers ever written |
| `ForkChoice.DifficultyByHeight` | blockchainCore/block_validator.go:251-258 | with the prescribed difficulty, total difficulty is genesis difficulty plus 0x2000 per height |
| `ForkChoice.RunHeightNeverDrops` | blockchainCore/blockchain.go:766-809 | over every run of blocks with the prescribed difficulty the head never loses height |
| `HeaderChains.HeaderChain.constructor` | blockchainCore/headerchain.go:61-102 | a fresh chain has the genesis header as its only entry |
| `HeaderChains.HeaderChain.GetTd` | blockchainCore/headerchain.go:345-357 | the cached read returns the stored total difficulty and keeps the cache coherent |
| `HeaderChains.HeaderChain.GetHeader` | blockchainCore/headerchain.go:377-389 | the cached read returns only stored headers and finds every header stored under its number |
| `HeaderChains.HeaderChain.DeleteAbove` | blockchainCore/headerchain.go:152-159 | the loop ends and leaves exactly the entries of the old line up to the given number |
| `HeaderChains.HeaderChain.OverwriteStale` | blockchainCore/headerchain.go:160-172 | the walk back ends if and only if every ancestor is stored or on the line already listed, and then leaves the number map equal to the new line |
| `HeaderChains.HeaderChain.SetCanonicalHead` | blockchainCore/headerchain.go:151-184 | the number map becomes exactly the ancestor line of the new head, unless the walk back fails |
| `HeaderChains.HeaderChain.StoreHeader` | blockchainCore/headerchain.go:140-146 | the stored total difficulty is the sum along the ancestor line and the caches stay coherent |
| `HeaderChains.HeaderChain.WriteHeader` | blockchainCore/headerchain.go:126-193 | on a complete chain keeps the whole invariant (number map is exactly the head's line, difficulties right, caches coherent), makes the fork-choice step and reports its outcome, including an unknown parent; after a rewind the same, or a nil dereference exactly if the header is preferred and an ancestor is neither stored nor on the head's line |
| `HeaderChains.ClosedReachable` | blockchainCore/headerchain.go:160-172 | where all ancestors of stored headers are stored the walk back of every child ends |
| `HeaderChains.HeaderChain.InsertHeader` | blockchainCore/headerchain.go:296-306 | a header already stored changes nothing, any other is written |
| `HeaderChains.HeaderChain.InsertHeaders` | blockchainCore/headerchain.go:289-307 | importing any list is a run of the fork-choice machine that keeps the invariant and a heaviest head; exactly the headers before the point reached are stored besides, and that is the end, the first interrupt or a header without parent |
| `HeaderChains.HeaderChain.DeleteLine` | blockchainCore/headerchain.go:440-449 | the walk down ends at the line's header of the given number and deletes exactly the line above it |
| `HeaderChains.HeaderChain.SetHead` | blockchainCore/headerchain.go:434-467 | exactly the numbers 0 to n stay assigned with the head at n, and all ancestors of what remains are stored if and only if no stored header has its parent among those deleted |
| `ChainExamples.RewindOrphans` | blockchainCore/headerchain.go:434-467 | a run of header imports and a rewind that leaves a header whose parent is deleted |
| `ChainExamples.RewindPanics` | blockchainCore/headerchain.go:160-172 | after that rewind an import meets a missing ancestor |
| `TxIndexes.WriteTransactions` | blockchainCore/database_util.go:404-440 | the transactions of a block are filed under its hash, number and their positions, all other entries stay |
| `TxIndexes.TxDifference` | blockchainCore/blockchain.go:1125-1132 | exactly the transactions of the first list that are not in the second |
| `TxIndexes.DeleteTransactions` | blockchainCore/database_util.go:509-512 | exactly the entries of the given transactions go |
| `TxIndexes.ExactIsUnique` | blockchainCore/database_util.go:404-440 | on a chain without repeated transactions there is only one exact index |
| `TxIndexes.FiledExtends` | blockchainCore/blockchain.go:934-945 | filing a block keeps an exact index exact for the chain with that block |
| `BlockChains.BlockChain.constructor` | blockchainCore/blockchain.go:101-147 | a fresh chain satisfies every invariant |
| `BlockChains.BlockChain.ReduceTo` | blockchainCore/blockchain.go:1056-1070 | walks one chain down to a number and collects exactly the blocks and transactions passed |
| `BlockChains.BlockChain.FindFork` | blockchainCore/blockchain.go:1056-1097 | finds the common ancestor of any two stored blocks and collects exactly the two branches above it; it never runs out of blocks |
| `BlockChains.ForkOfBranches` | blockchainCore/blockchain.go:1079-1097 | where the two walks first meet is the fork of the two ancestor lines |
| `BlockChains.BlockChain.Insert` | blockchainCore/blockchain.go:412-434 | assigns the number, moves the head, and moves header and fast head exactly if the entry changed |
| `BlockChains.BlockChain.Reorg` | blockchainCore/blockchain.go:1032-1151 | the new branch is listed above the fork, the index is moved from the old branch to the new one, the heads are where the inserts leave them |
| `BlockChains.IndexMoved` | blockchainCore/blockchain.go:1104-1132 | filing the new branch and deleting the difference turns an exact index of the old line into an exact index of the new one |
| `BlockChains.BlockChain.WriteBlock` | blockchainCore/blockchain.go:766-809 | makes the fork-choice step; the number map is the old one overlaid with the new line; nothing stale stays above the head if and only if the head does not lose height; the head header is the new head if and only if one block is new or it stood on the rewritten block already |
| `BlockChains.HeadHeaderFollows` | blockchainCore/blockchain.go:412-434 | where the inserts leave the head header is the new head if and only if the new branch is one block long, or the block was on the old line and the head header stood on it |
| `BlockChains.BlockChain.SwitchHead` | blockchainCore/blockchain.go:793-802 | extending the head or reorganising to a stored block: the number map, the index and the head header after it, with the exact conditions for no stale entry and no lag |
| `BlockChains.BlockChain.ImportBlock` | blockchainCore/blockchain.go:928-945 | writing a block and filing its transactions keeps the index exact, keeps branches free of repeated transactions, and keeps the number map tight under the prescribed difficulty |
| `BlockChains.BlockChain.InsertChain` | blockchainCore/blockchain.go:813-975 | over every list of blocks the import is a run of the fork-choice machine over validated blocks of the list: head heaviest, index exactly the canonical chain's transactions, no stale number above the head; every block before the point reached is stored, or queued because it was early or its parent was queued; it stops only at the end, an interrupt or a block with a reason to refuse it, and a chain of valid blocks on a stored one goes in whole if nothing interferes |
| `BlockChains.BlockChain.Treat` | blockchainCore/blockchain.go:831-886 | exactly which blocks are skipped, imported and queued, by what is stored, the queue and the validity of the header |
| `BlockChains.RefusedReason` | blockchainCore/blockchain.go:831-929 | all others, and only they, are refused: for a bad hash or nonce, a parent neither stored nor queued, an invalid header that is not of the near future, or what the block holds |
| `BlockChains.AcceptableFits` | blockchainCore/block_validator.go:192-246 | a block that header validation accepts at some time is one above its parent and has the prescribed difficulty, which keeps the number map tight |
| `ChainExamples.ShorterHeadLeavesStale` | blockchainCore/blockchain.go:766-809 | a run in which a heavier, shorter branch leaves an old entry above the head |
| `ChainExamples.HeadHeaderLags` | blockchainCore/blockchain.go:412-434 | a run with the prescribed difficulty after which the head header is below the head block |
| `ChainExamples.HeadHeaderStillLags` | blockchainCore/blockchain.go:412-434 | writing that head again leaves the head header where it was |
| `HeaderRules.GasLimitInBounds` | blockchainCore/block_validator.go:333-361 | for every valid parent the miner's gas limit is at least the minimum and within the allowed distance |
| `HeaderRules.GasLimitReachesTarget` | blockchainCore/block_validator.go:333-361 | the miner's gas limit grows until it reaches the target and never falls below it again |
| `HeaderRules.GasLimitFollowsUse` | blockchainCore/block_validator.go:333-361 | far above the target a full parent raises the miner's gas limit and an empty one lowers it by a 1024th less one |
| `HeaderRules.AcceptedIff` | blockchainCore/block_validator.go:192-246 | exactly which headers are accepted, field by field |
| `HeaderRules.AssembledHeaderNames` | miner/worker.go:431-466 | the miner's header names its parent, number, miner, nonce and body, and the time on the clock or just after the parent |
| `HeaderRules.AssembledHeaderAccepted` | miner/worker.go:431-466 | the header the miner assembles on a valid parent is accepted if and only if the clock has reached its time, its nonce verifies if checked and a pinned fork hash is its own |
| `HeaderRules.AcceptedHeaderFits` | blockchainCore/block_validator.go:192-246 | an accepted header has its parent one number lower, the prescribed difficulty, a later time that is not in the future, a verified nonce, a gas limit within a 1024th of its parent's, and the extra data its side of the fork demands |
| `Uncles.GetBlocksFromHash` | blockchainCore/blockchain.go:526-538 | the nearest ancestors, nearest first, as many as there are up to the number asked |
| `Uncles.CollectWindow` | blockchainCore/block_validator.go:133-141 | exactly the seven nearest ancestors and exactly the uncles they include |
| `Uncles.VerifyUncles` | blockchainCore/block_validator.go:127-172 | accepts a block if and only if its uncles obey all rules |
| `Uncles.UncleOkIff` | blockchainCore/block_validator.go:127-172 | the rules for one uncle in terms of the seven blocks before: listed once, none of them, in none of their uncles, a valid child of one of them but the nearest |
| `Uncles.UnclesOkIff` | blockchainCore/block_validator.go:127-131 | a block is verified exactly if it has at most two uncles and each obeys the rules; then none is listed twice |
| `Uncles.UncleDistance` | blockchainCore/block_validator.go:162-168 | a legal uncle is one to six numbers below its block |
| `Uncles.UncleNotOnLine` | blockchainCore/block_validator.go:127-172 | on a verified line no uncle is a block of the line, however far away |
| `Uncles.UncleInOneBlock` | blockchainCore/block_validator.go:127-172 | on a verified line no two blocks share an uncle, however far apart |
| `Uncles.NoHeaderRewardedTwice` | blockchainCore/block_validator.go:127-172 | on a verified line no header is rewarded twice, as block or as uncle |
| `UncleSelection.ChooseUncles` | miner/worker.go:485-507 | whatever the iteration order, at most two uncles are taken, each with its parent among the seven nearest ancestors and itself new to the family; a candidate is refused only if it is not, and nothing eligible is passed over while there is room |
| `UncleSelection.ChosenAcceptedIff` | miner/worker.go:525-538 | verification accepts the chosen uncles if and only if none has the block's own parent and their headers are valid |
| `UncleSelection.SiblingChosen` | miner/worker.go:525-538 | two valid headers with one parent: the miner takes one as uncle of the other and verification refuses |
| `WorldState.TotalUpdate` | blockchainCore/execution.go:201-204 | replacing one account changes the sum of balances by the change of its balance |
| `WorldState.GasPool.SubGas` | blockchainCore/gaspool.go:19-26 | takes gas if and only if there is enough |
| `WorldState.StateDB.Transfer` | blockchainCore/execution.go:201-204 | value moves and the sum of balances stays, also from an account to itself |
| `StateTransitions.IntrinsicGas` | blockchainCore/state_transition.go:68-90 | counting zero and non-zero bytes gives the sum of the prices of all bytes plus the base price |
| `StateTransitions.IntrinsicPrices` | blockchainCore/state_transition.go:68-90 | a zero byte costs 4 and any other 68, on top of 21000, or of 53000 for a creation under homestead rules |
| `StateTransitions.StateTransition.BuyGas` | blockchainCore/state_transition.go:157-172 | which error, and otherwise exactly what is taken from the sender and from the pool |
| `StateTransitions.StateTransition.Call` | blockchainCore/execution.go:13-62 | the value moves or, on an error, nothing changes |
| `StateTransitions.StateTransition.Create` | blockchainCore/execution.go:101-168 | the value moves to the derived account, whose nonce starts afresh, or nothing changes; at the sender's own address the value is added |
| `StateTransitions.StateTransition.RefundGas` | blockchainCore/state_transition.go:249-265 | exactly what returns to the sender and the pool, with the refund capped at half the gas used |
| `StateTransitions.StateTransition.TransitionDb` | blockchainCore/state_transition.go:197-247 | succeeds exactly when the prior state and pool allow it; then every balance is given, whichever addresses coincide, the sender's nonce has risen by one, a created account starts afresh and no other nonce has changed, the sum of balances is unchanged except for a creation at the sender's own address, and the pool drops by exactly the gas used; on an error what the pool loses |
| `StateTransitions.VerdictMeans` | blockchainCore/state_transition.go:157-247 | exactly when a message applies, and exactly when each error is reported |
| `StateTransitions.DeltaApart` | blockchainCore/state_transition.go:197-265 | between three different accounts the sender pays value and fee, the target gets the value and the miner the fee |
| `StateTransitions.UsedGasBounds` | blockchainCore/state_transition.go:249-269 | half the intrinsic gas rounded up is at most the gas used, which is at most the gas bought |
| `StateProcessors.RewardsBounded` | blockchainCore/state_processor.go:110-124 | with at most two uncles one to six numbers below, a block creates between one and 45/16 block rewards |
| `StateProcessors.VerifiedRewardsBounded` | blockchainCore/block_validator.go:127-172 | the same bound for every block whose uncles were verified |
| `StateProcessors.OneUnclePaid` | blockchainCore/state_processor.go:110-124 | an uncle d numbers below earns its miner (8 - d)/8 of the reward and the block's miner 33/32 of it, nobody else anything |
| `StateProcessors.RewardsAttained` | blockchainCore/state_processor.go:110-124 | two uncles one number below attain the upper bound of 45/16 exactly, no uncles the lower |
| `StateProcessors.AccumulateRewards` | blockchainCore/state_processor.go:110-124 | every account gets exactly its share and the sum of balances grows by exactly the rewards |
| `StateProcessors.ApplyDAOHardFork` | blockchainCore/dao.go:47-58 | the accounts become those of draining the list one by one |
| `StateProcessors.DrainedMoves` | blockchainCore/dao.go:47-58 | draining empties the listed accounts, leaves others alone and keeps the sum of balances, provided the refund account is not drained itself |
| `StateProcessors.ForkDrains` | blockchainCore/state_processor.go:53-56 | the listed accounts are empty when the transactions of the fork block begin on a supporting node, and no other block begins with a transfer |
| `StateProcessors.ApplyTransaction` | blockchainCore/state_processor.go:77-104 | which error and what the pool loses by it, and otherwise the receipt, the running gas, the pool and every account after it |
| `StateProcessors.AgreeSteps` | blockchainCore/state_processor.go:77-104 | whether a transaction applies and what it does depends only on what the state answers |
| `StateProcessors.NextExecutes` | blockchainCore/state_processor.go:77-104 | after a transaction the sender's next one executes if it has the gas and the balance, and the transaction itself is refused |
| `StateProcessors.ExecutionExtends` | blockchainCore/state_processor.go:44-70 | an execution may be prolonged by a transaction that applies |
| `StateProcessors.ApplyAll` | blockchainCore/state_processor.go:44-70 | the loop succeeds exactly if the transactions have an execution, which then tells receipts and state; pool and gas used add up and balances are conserved if no derived address is the sender's own |
| `StateProcessors.Process` | blockchainCore/state_processor.go:44-70 | a block is accepted exactly if its transactions have an execution on the parent state; then rest of the pool plus gas used is the gas limit, receipts carry the running sums, every account is rewarded as due and the sum of balances grows by exactly the rewards if no derived address is the sender's own |
| `StateProcessors.StateValidIff` | blockchainCore/block_validator.go:98-121 | a processed block passes exactly if gas and receipts are as committed to |
| `StateProcessors.SetReceiptsData` | blockchainCore/blockchain.go:610-640 | fills the derivable fields of all receipts, in place |
| `StateProcessors.ReceiptsRoundTrip` | blockchainCore/blockchain.go:610-640 | dropping the derivable fields of a processed block's receipts and deriving them again gives the same receipts |
| `Miners.Work.constructor` | miner/worker.go:345-379 | work begins on the parent state with the fork transfer applied |
| `Miners.Work.CommitTransaction` | miner/worker.go:610-622 | a transaction that fails leaves the accounts as they were and takes its gas from the pool exactly if it failed after the gas purchase; one that succeeds prolongs the execution |
| `Miners.Work.CommitTransactions` | miner/worker.go:540-608 | at every turn one of highest price among the next transactions of all accounts is tried and its fate decided by price, fork protection and the execution on the state and gas left then; one that does not go in ends its account; this goes on until nothing is on offer, and the lists of low-priced and failed transactions are exactly those of the trials |
| `Miners.OffersJudged` | miner/worker.go:540-608 | of every account a first part of its transactions goes in and, if that is not all, the next one was tried and met another fate |
| `Miners.RemovedIff` | miner/worker.go:566-589 | the pool is told to remove exactly the transactions below the asked price and those that failed for another reason than the gas left in the block |
| `Miners.LostGasDecides` | miner/worker.go:575-595 | gas kept by failed transactions changes the fate of one if and only if it is otherwise fit and fits into the free gas of the block but not into the pool |
| `Miners.CommitNewWork` | miner/worker.go:423-523 | the block's transactions are the ones included of those on offer and have an execution from the parent state, its gas used is the last running sum, its root is the rewarded state and the pool is told to remove exactly the low-priced and failed ones |
| `Miners.MinedBlockAccepted` | miner/worker.go:423-523 | processing a mined block on the same parent always succeeds, with the miner's receipts and gas, and ends in a state that answers alike |
| `BlockAssembly.AssembleBlock` | miner/worker.go:423-523 | one round of the miner: the block extends the head, its uncles are properly chosen candidates and its transactions are the included ones of those on offer |
| `BlockAssembly.AssembledBlockAccepted` | blockchainCore/block_validator.go:54-121 | another node accepts the assembled block, with any state root, in its header if and only if its time has come, its nonce verifies and a pinned fork hash is its own; in its uncles if and only if none is a sibling and their headers are valid; in its transactions, gas and receipts always |
| `BlockAssembly.WrongRootAccepted` | blockchainCore/block_validator.go:114-120 | a block that passes every check although its root credits an account with more than it has |
| `ExecutionExamples.FailureTakesGas` | miner/worker.go:610-622 | a failed transaction after which one that fits into the unused gas limit is refused for lack of gas |
| `ExecutionExamples.SelfCreationAdds` | blockchainCore/execution.go:115-130 | a creation at the sender's own address that adds its value to the sum of balances |
| `Admission.AdmittedIffExecutable` | blockchainCore/tx_pool.go:250-303 | for a signed transaction whose turn has come, the pool admits it if and only if it would execute and the pool's own policy allows it |
| `Admission.AdmittedIff` | blockchainCore/tx_pool.go:250-303 | exactly which transactions are admitted, signed or not, due or not |
| `NonceHeap.Up` | blockchainCore/tx_list.go:55-61 | sifting up restores the heap and permutes it |
| `NonceHeap.Down` | blockchainCore/tx_list.go:66-80 | sifting down orders everything below and permutes, and tells whether it moved |
| `NonceHeap.Pop` | blockchainCore/tx_list.go:66-80 | takes the least nonce off and leaves a heap of the others |
| `NonceHeap.Remove` | blockchainCore/tx_list.go:134-151 | takes the nonce at a position off and leaves a heap of the others |
| `NonceHeap.Init` | blockchainCore/tx_list.go:84-105 | makes a heap of any slice |
| `NonceHeap.HeapRootLeastOfAll` | blockchainCore/tx_list.go:160-175 | the root of a heap is its least element |
| `SortedTxs.SortedMembers` | blockchainCore/tx_list.go:185-198 | the listing holds exactly the stored transactions |
| `SortedTxs.SortedIncreases` | blockchainCore/tx_list.go:185-198 | the listing is in strictly increasing nonce order |
| `SortedTxs.SortedUnique` | blockchainCore/tx_list.go:185-198 | there is only one such listing |
| `TxSortedMaps.TxSortedMap.Put` | blockchainCore/tx_list.go:55-61 | files or replaces by nonce and keeps map, heap and cache in agreement |
| `TxSortedMaps.TxSortedMap.Forward` | blockchainCore/tx_list.go:66-80 | removes exactly the nonces below the threshold, in order |
| `TxSortedMaps.TxSortedMap.Filter` | blockchainCore/tx_list.go:84-105 | removes exactly the selected transactions and rebuilds the heap |
| `TxSortedMaps.TxSortedMap.Cap` | blockchainCore/tx_list.go:109-130 | keeps exactly the lowest nonces and returns the others from the top; the cut cache stays right |
| `TxSortedMaps.TxSortedMap.Remove` | blockchainCore/tx_list.go:134-151 | removes one nonce and tells whether it was there |
| `TxSortedMaps.TxSortedMap.Ready` | blockchainCore/tx_list.go:160-175 | takes the maximal consecutive run from the lowest nonce, and nothing if that is above the start |
| `TxSortedMaps.TxSortedMap.Flatten` | blockchainCore/tx_list.go:185-198 | returns the listing of the stored transactions, cached or not |
| `TxSortedMaps.ListingSorted` | blockchainCore/tx_list.go:185-198 | sorting the transactions of a map by nonce gives its listing |
| `TxLists.TxList.Add` | blockchainCore/tx_list.go:225-237 | accepts a transaction unless one with its nonce pays as much, and keeps the cost cap above every cost |
| `TxLists.TxList.Filter` | blockchainCore/tx_list.go:254-276 | the shortcut by the cost cap changes nothing; what is removed, invalidated and left partitions the list |
| `TxLists.TxList.Forward` | blockchainCore/tx_list.go:242-244 | removes exactly the nonces below the threshold |
| `TxLists.TxList.Cap` | blockchainCore/tx_list.go:280-282 | keeps exactly the lowest nonces |
| `TxLists.TxList.Remove` | blockchainCore/tx_list.go:287-298 | removes a nonce and, from a strict list, exactly everything above it |
| `TxLists.PayableBelow` | blockchainCore/tx_list.go:254-276 | filtering by cost and then by the lowest unaffordable nonce leaves exactly what is payable in order |
| `TxLists.ContiguityKept` | blockchainCore/tx_list.go:225-298 | a list without gaps stays without gaps under every operation of a strict list |
| `Eviction.CapTo` | blockchainCore/tx_list.go:109-130 | keeps exactly the lowest nonces |
| `Eviction.Round` | blockchainCore/tx_pool.go:563-567 | one round lowers all offenders by one and the counter by as many |
| `Eviction.Candidates` | blockchainCore/tx_pool.go:535-548 | the accounts over their guaranteed share that look remote, whichever transaction is looked at |
| `Eviction.Evict` | blockchainCore/tx_pool.go:528-582 | exact water filling: one level of at least 16 to which every candidate is cut and nothing else is; the total is within the limit or the level is 16, and with one level more there would be too many |
| `Eviction.EvictedUnique` | blockchainCore/tx_pool.go:528-582 | there is only one such level: the candidates determine the outcome |
| `Eviction.EvictedGuarantee` | blockchainCore/tx_pool.go:528-582 | no account loses any of its 16 lowest nonces, one whose transactions are all local loses nothing, and nothing happens while the total fits |
| `PoolSizes.SizeUpdate` | blockchainCore/tx_pool.go:528-532 | replacing one list changes the total by the change of its length |
| `PoolSizes.ByHeartbeat` | blockchainCore/tx_pool.go:585-590 | all accounts with lists, once each, by heartbeat |
| `Promotion.MergeMeans` | blockchainCore/tx_list.go:225-237 | of two lists put together every nonce is kept with the better paying transaction, the one that was there on a tie |
| `Promotion.CurrentMeans` | blockchainCore/tx_pool.go:489-506 | what promotion considers is exactly what is not spent and within the balance |
| `Promotion.LoweredMeans` | blockchainCore/tx_pool.go:458-461 | a removal lowers the recorded nonce of its account to the nonce removed if it is above, and no other |
| `Promotion.ReadyListing` | blockchainCore/tx_list.go:160-175 | a consecutive listing from the lowest nonce that ends at a gap is what is due |
| `Promotion.WaitingTidy` | blockchainCore/tx_pool.go:489-519 | what keeps waiting is not due, not stale, affordable and within the limit of the account |
| `Promotion.WaitingEverywhere` | blockchainCore/tx_pool.go:487-527 | promotion of every account by itself determines the whole queue |
| `Promotion.RecordedDrops` | blockchainCore/tx_pool.go:375 | promotion lowers the recorded nonce if and only if something takes a place and all that does is below it |
| `Promotion.RecordedNext` | blockchainCore/tx_pool.go:375 | the recorded nonce is the one after the last executable transaction if and only if it was and nothing takes a place, or no executable nonce is above all that does |
| `Promotion.DemotedWaits` | blockchainCore/tx_pool.go:641-653 | an executable transaction that the account can pay but not in order waits again, unless one that pays as much does already |
| `Overflow.BottomStep` | blockchainCore/tx_pool.go:599-603 | removing the lowest waiting nonces one after the other is removing them at once, clashes with executable nonces included |
| `Overflow.TopStep` | blockchainCore/tx_pool.go:608-613 | the same from the highest nonce down |
| `Overflow.RemovedIsDropped` | blockchainCore/tx_pool.go:594-613 | the one by one removal of an account's excess leaves exactly the lists `Dropped` gives |
| `Overflow.DroppedSize` | blockchainCore/tx_pool.go:594-613 | at least the room is used, and exactly the lowest nonces are left if and only if dropping brings no executable transaction into the queue |
| `Overflow.DroppedApart` | blockchainCore/tx_pool.go:594-613 | if no nonce is in both lists the executable list stays and the lowest waiting nonces are kept |
| `Overflow.CutFromLatest` | blockchainCore/tx_pool.go:585-615 | an account keeps something only if every account with an earlier heartbeat keeps everything |
| `Overflow.OverflowedSize` | blockchainCore/tx_pool.go:583-616 | an overflowing queue ends at 1024 if and only if no drop brings executable transactions into it, and never below |
| `Overflow.OverflowedApart` | blockchainCore/tx_pool.go:583-616 | if nothing waits at an executable nonce, executable lists stay, every account keeps the lowest nonces there is room for, and the queue ends at 1024 |
| `Overflow.EnforcedApart` | blockchainCore/tx_pool.go:476-617 | promotion, eviction and overflow together end within the queue's limits, tidy, if nothing waits at an executable nonce or the queue does not overflow |
| `Overflow.ExpiredApart` | blockchainCore/tx_pool.go:676-682 | if no nonce of an idle account is in both lists, its waiting list goes and its executable list stays |
| `TxPools.TxPool.constructor` | blockchainCore/tx_pool.go:93-116 | an empty pool is in order |
| `TxPools.TxPool.EnqueueTx` | blockchainCore/tx_pool.go:326-343 | exact new queue and known set; an outbid transaction is forgotten |
| `TxPools.TxPool.EnqueueAll` | blockchainCore/tx_pool.go:453-456 | queueing several transactions in any order merges the two lists by price and forgets exactly the outbid |
| `TxPools.TxPool.PromoteTx` | blockchainCore/tx_pool.go:348-377 | exact new executable list, known set, recorded nonce and heartbeat; the loser of a nonce is forgotten |
| `TxPools.TxPool.RemoveTx` | blockchainCore/tx_pool.go:434-471 | exact new lists of the sender, known set and recorded nonce, others untouched; followers are queued again unless nothing is left before them |
| `TxPools.TxPool.RemoveAll` | blockchainCore/tx_pool.go:599-613 | removing a listing is removing its transactions one after the other, on the lists and the known set |
| `TxPools.TxPool.PromoteQueued` | blockchainCore/tx_pool.go:487-527 | for every account exactly what moved, what waits and what is recorded; no transaction comes in; the counter is the queue's size |
| `TxPools.TxPool.EvictPending` | blockchainCore/tx_pool.go:528-582 | executable lists are cut to one level as `Evict` does; the total is within the limit or every account over its share has a local transaction |
| `TxPools.TxPool.DropOverflow` | blockchainCore/tx_pool.go:583-616 | the loop never runs out of accounts; 1024 places go to the accounts by heartbeat and every list after it is given; the queue ends at 1024 if and only if no drop brings executable transactions into it |
| `TxPools.TxPool.DropFrom` | blockchainCore/tx_pool.go:594-613 | exact lists of one account after dropping up to a number of its waiting transactions |
| `TxPools.TxPool.PromoteExecutables` | blockchainCore/tx_pool.go:476-617 | for every account what was promoted, to which level it was evicted and what was dropped; the queue ends within 1024 if and only if it was after promotion or no drop spills; if nothing waits at an executable nonce, queue and executable lists end within all limits, overflow included |
| `TxPools.TxPool.DemoteUnexecutables` | blockchainCore/tx_pool.go:622-661 | every executable list becomes exactly its current part that is payable in nonce order, every waiting list takes in exactly the affordable rest, and nothing comes in |
| `TxPools.TxPool.ExpireAccount` | blockchainCore/tx_pool.go:676-682 | exact lists of an idle account after dropping its waiting list; an account that is not idle, and every other account, stays as it is |
| `TxPools.TxPool.AddTx` | blockchainCore/tx_pool.go:307-321 | which error, and otherwise the exact new queue and known set |
| `TxPools.TxPool.Add` | blockchainCore/tx_pool.go:380-390 | which error, and a refused transaction changes nothing; an admitted one is queued and the limits are enforced: within all of them if then nothing waits at an executable nonce or the queue does not overflow |
| `TxPools.TxPool.AddBatch` | blockchainCore/tx_pool.go:393-403 | the transactions are admitted one by one and then the limits are enforced once, with the same guarantee |
| `TxPools.TxPool.ResetState` | blockchainCore/tx_pool.go:146-173 | lists and recorded nonces of every account on the new state, and then the limits enforced with the same guarantee; nothing comes in |
| `TxPools.TxPool.Expire` | blockchainCore/tx_pool.go:666-689 | whatever the order, exactly the idle accounts' waiting lists are dropped and nothing comes in |
| `TxPools.TxPool.Handle` | blockchainCore/tx_pool.go:118-144 | every event and call does what its operation does, with the settings it finds, and changes no setting but its own |
| `TxPools.TxPool.EventLoop` | blockchainCore/tx_pool.go:118-144 | over every sequence of events and calls: listed transactions are known, sit with their sender, are in one list only, and no list is empty |
| `PoolExamples.BatchOverflows` | blockchainCore/tx_pool.go:393-403 | two batches on a new pool after which more than 1024 transactions wait |
| `PoolExamples.RemovalForgets` | blockchainCore/tx_pool.go:434-471 | a removal from a pool after which a known transaction is in no list |
| `PoolExamples.ReplacementStalls` | blockchainCore/tx_pool.go:348-377 | a replacement after which the transaction next to the executable ones keeps waiting |
| `TxSync.FillPack` | siot/sync.go:59-66 | a pack ends where its size first reaches the target, or at the end, and is not empty |
| `TxSync.PackEndsOnce` | siot/sync.go:59-66 | there is only one such place |
| `TxSync.StepKeeps` | siot/sync.go:92-113 | every turn of the loop and every move of a send routine keeps: at most one routine at work or reported, exactly while the loop thinks so, with the shared pack as it was handed over; nobody waiting while nothing is sent; no empty pack; and for a peer without a mishap delivered plus in flight plus waiting is what was requested, in order |
| `TxSync.RunKeeps` | siot/sync.go:49-114 | the same over every run and interleaving |
| `TxSync.SendsNeverCollide` | siot/sync.go:57-75 | in every state of every run at most one send routine exists, the shared pack is the one it sends, and its report never blocks |
| `TxSync.FailedPeerDropped` | siot/sync.go:99-105 | a peer whose send failed loses what waits for it and is not served next; all others but the one served keep what they wait for |
| `TxSync.ServedPeerKept` | siot/sync.go:99-109 | after a send that succeeded somebody is served exactly if somebody waits, and nothing that waits is lost |
| `TxSync.TxSyncLoop.OnRequest` | siot/sync.go:94-98 | the loop's code for a request makes a step of that system |
| `TxSync.TxSyncLoop.OnSent` | siot/sync.go:99-109 | the loop's code for a finished send makes a step of that system |
| `NoncePipeline.ActionMoves` | blockchainCore/chain_pow.go:40-71 | every action only moves indices between buffers; the feeder alone adds one, its own |
| `NoncePipeline.RunKeeps` | blockchainCore/chain_pow.go:40-71 | in every interleaving each index fed is at exactly one place and the buffers keep their bounds |
| `NoncePipeline.PipelineSafe` | blockchainCore/blockchain.go:830-859 | in every interleaving no index is verified twice, no worker can block on the results, at most as many results are received as there are blocks, and blocks are validated in order, each after its own valid result |
| `NoncePipeline.MovesBounded` | blockchainCore/chain_pow.go:40-71 | in every interleaving the goroutines make at most four moves for each block |
| `NoncePipeline.NoDeadlock` | blockchainCore/blockchain.go:841-850 | while the import waits for a result some goroutine can move |
| `KeyLayout.BigEndianRoundTrip` | blockchainCore/database_util.go:53-57 | decoding an encoded block number gives it back |
| `KeyLayout.MinimalRoundTrip` | siot/db_upgrade.go:95-97 | the same for the old encoding in as few bytes as possible |
| `KeyLayout.EncodeInjective` | blockchainCore/database_util.go:25-47 | below block number 2 to the 62 the old and the new layout together never use one key for two things |
| `KeyLayout.OldKeyReused` | blockchainCore/database_util.go:25-47 | without the bound every old difficulty key is also the body key of some block |
| `KeyLayout.Scanned` | siot/db_upgrade.go:77-90 | which keys each scan of the migration comes across |
| `KeyMigration.PutNumber` | siot/db_upgrade.go:95-100 | copying a canonical entry changes no reader's answer and keeps the entries in agreement |
| `KeyMigration.DeleteNumber` | siot/db_upgrade.go:101-103 | deleting the copied entry changes no reader's answer |
| `KeyMigration.PutBlockNumber` | siot/db_upgrade.go:212-217 | storing a block's number under its hash changes no reader's answer |
| `KeyMigration.PutPart` | siot/db_upgrade.go:218-236 | copying a header, difficulty, body or receipts changes no reader's answer |
| `KeyMigration.DeleteOld` | siot/db_upgrade.go:145-154 | deleting any one old entry of a copied block, in any order, changes no reader's answer |
| `KeyMigration.OldLayoutReady` | siot/db_upgrade.go:26-73 | a database with entries in the old layout only agrees, so its migration changes no answer |
| `KeyConversion.DeleteOrphan` | siot/db_upgrade.go:171-194 | deleting old receipts once no old header is left changes no reader's answer |
| `KeyConversion.ConvertedSameIff` | siot/db_upgrade.go:77-238 | a finished migration has changed no reader's answer if and only if old and new entries agreed when it began |
| `KeyConversion.StaleDisagrees` | siot/db_upgrade.go:95-100 | a database the migration takes on, in which every finished conversion answers with the stale hash |
| `SequentialKeys.ChainDatabase.UpgradeNumbers` | siot/db_upgrade.go:77-115 | at every write, failing or not, stopped or not, readers see no difference; it stops exactly if asked to and fails exactly if a write does, and otherwise has moved every canonical entry |
| `SequentialKeys.ChainDatabase.UpgradeBlockData` | siot/db_upgrade.go:198-238 | at every write readers see no difference; it fails exactly if a write does or the old header does not decode, and otherwise all parts of the block are copied and nothing else changed |
| `SequentialKeys.ChainDatabase.UpgradeBlocks` | siot/db_upgrade.go:120-167 | at every write readers see no difference; it stops exactly if asked to and fails only if a write does or an old header does not decode, and otherwise has converted every block |
| `SequentialKeys.ChainDatabase.UpgradeOrphanedReceipts` | siot/db_upgrade.go:171-194 | at every write readers see no difference; it stops exactly if asked to and fails exactly if a write does, and otherwise leaves no old receipts |
| `SequentialKeys.ChainDatabase.UpgradeSequentialKeys` | siot/db_upgrade.go:26-73 | which databases it leaves alone; entries that are no chain data stay; in every content the database has had since the start all readers answer as before and the migration can begin again, if entries agreed; it stops only if asked to, fails only at a failing write or an undecodable header, and otherwise finishes: everything converted, the flag written unless that write fails, and no answer changed if and only if entries agreed |
| `SequentialKeys.StaleHashReturns` | siot/db_upgrade.go:26-73 | the migration of that database finishes unless stopped or a write fails, and has then replaced the canonical hash by the stale one |

## Left out

- Virtual machine: the interpreter call is disabled in the source, so calls and creations only move value; code, storage, logs and blooms are not modelled.
- State trie, receipt and transaction roots, blooms, RLP and signatures: roots are the values they commit to, and recovering a sender is a flag of the transaction.
- Deletion of empty accounts when the intermediate root is taken (blockchainCore/state_processor.go:88): an empty and a missing account answer alike here.
- Integer widths: gas, nonces, numbers and balances are unbounded; only the key layout models 64-bit numbers.
- Fast synchronisation, receipt chains, rollback, processing of queued future blocks and loading the last state on start: they add no property beyond those of block import.
- Block bodies, receipts and the body, block and number caches of the block chain: only the header chain's two caches are modelled, with arbitrary eviction.
- Fallback to old keys in the chain modules: the readers with fallback are modelled in `KeyMigration`; the chain modules read the new layout.
- Legacy difficulty formulas (blockchainCore/block_validator.go:260-328): they are not called.
- The price heap of the miner: it is a choice of any transaction of highest price among the next of all accounts.
- Events, metrics, mutexes and logging: locked methods are atomic steps.
- StateProcessors.Process: assumes the refund counter is zero between transactions, as taking the intermediate root leaves it; begins with the state of the parent, where a later block of an imported list begins with that of the block before it in the list.
- HeaderChains.HeaderChain.WriteHeader: is stated for headers whose known parent sits one number lower, which header validation ensures; with a cached difficulty the source does not check the number again.
- BlockChains.BlockChain.InsertChain: is stated for blocks whose branch holds no transaction twice, which nonces ensure; the judgement of nonces, uncles and processing appears as an input.
- TxPools.TxPool: its lists are values with the functions that `TxList` is proved against, so sharing of a list object between two maps is not captured; priorities of the eviction queue are integers, not 32-bit floats.
- TxPools.TxPool.constructor: starts with pending nonces from a given state, where the source creates them on first use (blockchainCore/tx_pool.go:477-480).
- NoncePipeline.PipelineSafe: verification is a fixed function of the index, and which worker holds which index is not told apart.
- SequentialKeys.ChainDatabase.UpgradeBlocks: the order in which the iterator visits keys is left open, and its periodic renewal is not modelled.
