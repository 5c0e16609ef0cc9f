# A model of the node: ledger, chain, numbers, hashing and wire format

The project models the part of the repository that has to be right for balances to
be right, and proves what it keeps. In the order of the modules:

- **Ledger, executor and supply** (`Ledger`, `TransactionStore`, `Execution`,
  `Executor`, `Supply`). Balances are unsigned 64-bit and wrap around. A block is
  executed in place with a record of deltas, and undone from that record or from the
  stored block.
- **The chain** (`BlockStore`, `Difficulty`, `ChainSpec`, `Retarget`, `Answers`, `BlockChain`,
  `ChainReplay`, `ChainRuns`,
  `Leftover`, `Repeats`, `FlatRun`).
  The class `BlockChain` has the fields of the original, its three stores, and a ghost
  sequence `survivors` of the blocks that are on the chain. `Valid()` says that every
  field, store and table is what the survivors imply. Adding, popping, resetting,
  restarting, trying out a transaction and the popping phase of a sync all keep it.
- **Trusted headers** (`HeaderChain`): loading the header chain of a remote host.
- **Big numbers** (`Power`, `Limbs`, `LimbProducts`, `Decimal`, `Bigint`): base 10^9 vectors
  that hold the total work, with the memoised power, printing and parsing.
- **Merkle trees and proof of work** (`MerkleSpec`, `MerkleTree`, `LeadingZeros`).
- **Ed25519 arithmetic** (`FieldSpec`, `FieldElement`, `FieldBytes`, `FieldPower`,
  `Recoding`, `ScalarMult`): field multiplication and canonical encoding with machine
  widths, addition chains for powers, signed-digit recodings and the scalar multiplications driven by them.
- **SHA-2 streaming** (`HashBlocks`, `Sha256`, `Sha512`): buffering and padding around an
  arbitrary compression function.
- **Wire format** (`WireFormat`, `Layout`): records, cursors and block streams, and the bytes
  that hashes cover.

Hash functions, signature checks, the proof-of-work hash, the compression functions and
the answers of remote hosts are parameters about which nothing is assumed. Clocks are
arguments. What the source reports by an exception is an `ok` flag or an `Option`.

## What the code does that a reader might not expect

Each of these is proved, for the code as it is.

- Popping a block, or restarting, reloads the difficulty of the last block. At a height
  over 200 divisible by 100 where the retarget had moved it, the retarget is lost
  (`ChainRuns.AddThenPop`, `BlockChains.BlockChain.InitChain`). This happens on a chain of
  300 blocks in half the expected time (`FlatRuns.RetargetRun`).
- A rejected block can leave empty wallets behind, so that a later transfer answers
  "balance too low" instead of "sender does not exist" (`ChainRuns.ExistenceMatters`),
  and a later block passes that moves nothing from such a wallet. A node without that
  wallet refuses the block, and a replay fails (`Leftovers.Leftover`,
  `FlatRuns.LeftoverRun`). The survivors replay exactly if each zero-sum transfer past
  genesis has a sender named before it (`ChainReplays.ReplayAgrees`).
- A block that was accepted where a pop or a restart had lost a retarget that changes the
  difficulty is refused by a fresh node (`ChainRuns.LoseRetarget`, `ChainRuns.Follow`).
- The sum of amount and fee is compared modulo 2^64. An accepted transfer is exact only if
  the payer's balance covers what it pays to others (`Supplies.ExactIff`), which can fail
  only where the sum wraps. Such a transfer makes 2^64 out of nothing, unless the credit of
  its payee or miner wraps around as well (`Supplies.SupplyKeptIff`,
  `Supplies.WrapBreaksConservation`). A payment to oneself can wrap and still be exact.
- The same signed transfer can be twice in one block, and is paid twice (`Repeats.BothPaid`,
  `Repeats.CopyPasses`); it cannot be in two blocks (`Repeats.TransfersDistinct`).
- The header chain answers the null hash for its own last block, so against a
  host with its own very chain the agreement ends before the tip
  (`HeaderChains.OwnTipDiffers`), though nothing is popped for it.
- A load that fails resets the header chain, and the reset clears the failure flag
  (`HeaderChains.HeaderChain.Load`).
- A header of difficulty zero makes a load recurse for ever (`HeaderChains.HeaderChain.Load`).
- A checkpoint is compared with every header of the batch that starts on it
  (`HeaderChains.CheckPointHoldsBatch`).
- The two forms of zero of a big number compare as different
  (`Bigints.Bigint.Compare`), so a host without any work is taken to have some
  (`HeaderChains.HeaderChain.IsValid`).
- The Merkle proof of every transaction is the same node, a copy of the root
  (`MerkleTrees.MerkleTree.GetMerkleProof`).
- The comment on encoding a field element argues from a value of at most the prime, but
  the stated limb bounds allow more, and quotients down to -2. The result is right
  nevertheless (`FieldBytes.Quotient`, `FieldBytes.FeToBytes`).
- The test for a nonzero field element answers 1 for a nonzero one, the opposite of its
  comment (`FieldBytes.FeIsNonzero`).
- SHA-256 writes only 32 bits of the length, and a chunk of almost 2^32 bytes can wrap
  the length of the buffer (`Sha256.PaddedIsFips`, `Sha256.Context.Update`).

## Model

| member | source | states |
|---|---|---|
| Ledgers.Ledger.CreateWallet | c++/src/server/ledger.cpp:27-30 | a new wallet holds 0; one that exists is an exception and nothing changes |
| Ledgers.Ledger.GetWalletValue | c++/src/server/ledger.cpp:37-42 | answers the stored balance, or reports that the wallet does not exist |
| Ledgers.Ledger.Withdraw | c++/src/server/ledger.cpp:44-48 | takes the amount off modulo 2^64, exactly if the wallet exists; every other wallet keeps its balance |
| Ledgers.Ledger.Deposit | c++/src/server/ledger.cpp:55-58 | adds the amount modulo 2^64, exactly if the wallet exists |
| Ledgers.Ledger.RevertSend | c++/src/server/ledger.cpp:50-53 | gives the amount back modulo 2^64, exactly if the wallet exists |
| Ledgers.Ledger.RevertDeposit | c++/src/server/ledger.cpp:60-63 | takes the amount back modulo 2^64, exactly if the wallet exists |
| TransactionStores.TransactionStore.HasTransaction | c++/src/server/tx_store.cpp:8-14 | a transaction is found exactly if its content hash is a key |
| TransactionStores.TransactionStore.BlockForTransaction | c++/src/server/tx_store.cpp:16-24 | answers the block number under the content hash, or that there is none |
| TransactionStores.TransactionStore.InsertTransaction | c++/src/server/tx_store.cpp:26-33 | enters the block number under the content hash and changes nothing else |
| TransactionStores.TransactionStore.RemoveTransaction | c++/src/server/tx_store.cpp:35-40 | removes the content hash and nothing else |
| Execution.ApplyMovesByNet | c++/src/server/executor.cpp:118-158 | the four ordered map updates of a transaction move every balance by its signed net amount modulo 2^64, also when payer, payee and miner coincide |
| Execution.NetIs | c++/src/server/executor.cpp:118-158 | the payee gains the amount, the miner the fee, the payer loses both; fees and genesis deposits come out of nothing |
| Execution.ScanAccepts | c++/src/server/executor.cpp:213-234 | the first pass accepts exactly the blocks with one fee whose transfers are new and, past block 11500, match their signing keys |
| Execution.ExecuteTracks | c++/src/server/executor.cpp:213-249 | wherever execution stops, every balance is its start plus its recorded delta modulo 2^64, and every wallet in the record exists |
| Execution.RunTracks | c++/src/server/executor.cpp:239-248 | the same for any list of transactions from any tracked state |
| Execution.ExecuteSucceeds | c++/src/server/executor.cpp:213-249 | a successful block moves each balance by the sum of the net amounts, drops no wallet, and leaves every wallet that undoing it needs |
| Execution.RunMovesByNet | c++/src/server/executor.cpp:239-248 | running transactions in order adds up their net amounts for every wallet |
| Execution.RunNames | c++/src/server/executor.cpp:118-158 | the wallets after a successful run are those before it and the ones its transactions name |
| Execution.RunElsewhere | c++/src/server/executor.cpp:118-158 | what succeeds on one ledger succeeds on another with the same balances exactly if each transfer whose sum is zero finds its sender there or named by a transaction before it |
| Execution.NetAllSnoc | c++/src/server/executor.cpp:239-248 | the net amount of a list is that of its front plus that of its last transaction |
| Answers.UpdateAnswers | c++/src/server/executor.cpp:118-158 | each status of updating the ledger, exactly when its own test fails and the earlier ones pass: sender and key past block 11500, the fee, the wallet, the balance against the sum modulo 2^64 |
| Answers.ScanAnswers | c++/src/server/executor.cpp:213-234 | the first pass succeeds exactly if there is a fee and nothing wrong with any transaction; otherwise it stops at the first with a second fee, a known content hash or a forged sender, and says which |
| Answers.RunAnswers | c++/src/server/executor.cpp:239-248 | the second pass succeeds exactly if each transaction passes on the ledger that those before it leave; otherwise it stops at the first that does not, with that ledger and its status |
| Answers.ExecuteAnswers | c++/src/server/executor.cpp:213-249 | executing a block succeeds exactly if nothing is wrong, its one fee pays the reward and each transaction passes in its turn, with the ledger they leave; every failure by its place and status |
| Executors.Deposit | c++/src/server/executor.cpp:90-101 | creates the wallet if needed and credits ledger and record alike |
| Executors.Withdraw | c++/src/server/executor.cpp:103-116 | debits ledger and record alike, with the record starting from the negated amount; without the wallet nothing changes |
| Executors.UpdateLedger | c++/src/server/executor.cpp:118-158 | the status for every branch; on success both maps move alike, on failure neither changes |
| Executors.ExecuteTransaction | c++/src/server/executor.cpp:200-211 | signature and sender checks come first; the record keeps tracking the ledger |
| Executors.ScanBlock | c++/src/server/executor.cpp:213-234 | the verdict of the first pass, and on success the first fee and its payee |
| Executors.ExecuteBlock | c++/src/server/executor.cpp:213-249 | status, ledger and record are those of running the block, up to the first failure |
| Executors.Rollback | c++/src/server/executor.cpp:177-181 | takes every recorded delta off in any order; it succeeds exactly if all recorded wallets exist |
| Executors.RollbackLedger | c++/src/server/executor.cpp:160-175 | undoes one transaction, exactly if the wallets it looks up exist |
| Executors.RollbackBlock | c++/src/server/executor.cpp:183-198 | undoes a block last transaction first: balances lose the net amounts, the index loses its transfers |
| Executors.RevertMovesAllBack | c++/src/server/executor.cpp:160-198 | undoing a list moves every balance by minus the sum of the net amounts modulo 2^64 |
| Supplies.SupplySame | c++/src/server/executor.cpp:90-116 | the total supply depends on the balances only, not on which empty wallets exist |
| Supplies.ExactIff | c++/src/server/executor.cpp:118-158 | with room for what it creates, a transaction moves every balance by its net amount as an integer exactly if the payer has what it pays to others; and then the supply grows by what it creates |
| Supplies.SupplyKeptIff | c++/src/server/executor.cpp:118-158 | an accepted transfer past genesis keeps a supply below 2^64 if and only if it is covered or the credit of its payee or miner wraps around too; otherwise it raises the supply by exactly 2^64 |
| Supplies.RunExact | c++/src/server/executor.cpp:239-248 | with room for what a block creates, all its transactions are exact if and only if each is covered when its turn comes; then the block is, and the supply grows by what was created |
| Supplies.RunCovered | c++/src/server/executor.cpp:145-148 | an accepted block whose sums do not wrap is covered throughout |
| Supplies.MintIsFee | c++/src/server/executor.cpp:213-238 | past genesis a block with one fee creates exactly that fee |
| Supplies.WrapBreaksConservation | c++/src/server/executor.cpp:145-148 | an instance: amount 2^64-1 and fee 1 pass the balance check on an empty wallet and raise the supply by 2^64 |
| Supplies.AllExact | c++/src/server/executor.cpp:239-248 | from exact balances with room, the transactions of a block are covered in turn exactly if each payer has what it pays to others by the net amounts so far; then all of these fit and are the balances in the end |
| Difficulties.ComputeDifficulty | c++/src/server/blockchain.cpp:215-242 | the result stays in 16..254 and moves by the bit count at which scaled elapsed time is closest to the target over all allowed counts; whether every int product fits is answered too |
| Difficulties.Lower | c++/src/server/blockchain.cpp:217-228 | the loop that divides: it always fits 32 bits, stops at 16, and its count is the closest one |
| Difficulties.Raise | c++/src/server/blockchain.cpp:229-241 | the loop that multiplies: it stops at 254, its count is the closest one, and it fits 32 bits exactly under the stated test on elapsed time and room |
| Difficulties.FirstRiseIsClosest | c++/src/server/blockchain.cpp:220-239 | the first count after which the distance rises is the best of all, not just locally |
| Difficulties.ClosestUnique | c++/src/server/blockchain.cpp:220-239 | only one count is closest and not followed by an equally close one |
| LeadingZeros.CheckLeadingZeroBits | c++/src/core/crypto.cpp:198-207 | passes exactly if the hash has that many leading zero bits |
| LeadingZeros.CountZeros | c++/src/miningproblem/main.cpp:34-59 | the chain of comparisons counts the leading zero bits of any hash |
| LeadingZeros.ZerosIsMagnitude | c++/src/core/crypto.cpp:198-207 | d leading zero bits are the same as being below 2^(256-d) read big-endian |
| LeadingZeros.PoolZerosAgrees | shifupool/lib/bmbpool/work.ex:16-32 | the pool counts the same zeros on every hash but the null one, on which it has no clause |
| LeadingZeros.ShareMeetsItsClaim | shifupool/lib/bmbpool/work.ex:4-14 | a share is rejected exactly if its length is not 32; otherwise it is accepted exactly if its hash is not null and has as many zeros as its first byte claims, and the program fails on the null hash |
| Answers.NonceIsWork | c++/src/core/crypto.cpp:198-218 | a block has its proof of work exactly if it has no predecessor or its proof hash, read big-endian, is below 2^(256-difficulty) |
| MerkleSpec.HexOrderIsNumeric | c++/src/core/merkle_tree.cpp:43-45 | comparing hex strings of hashes is comparing the numbers they spell |
| MerkleSpec.SortDescends | c++/src/core/merkle_tree.cpp:43-45 | the sort leaves a permutation whose hashes descend |
| MerkleSpec.SortAgain | c++/src/core/merkle_tree.cpp:43-45 | sorting a sorted block changes nothing: among transactions of equal hash a property of the stable order chosen here, not of std::sort |
| MerkleSpec.DescendingUnique | c++/src/core/merkle_tree.cpp:43-45 | a multiset of hashes has only one descending order |
| MerkleSpec.BuildRotates | c++/src/core/merkle_tree.cpp:58-71 | pairing from a queue across levels ends in one tree whose leaves are a rotation of the queue |
| MerkleSpec.RootTreeShape | c++/src/core/merkle_tree.cpp:42-72 | every inner hash is that of its children and the leaves are a rotation of the sorted, padded hashes |
| MerkleSpec.RootIgnoresOrder | c++/src/core/merkle_tree.cpp:42-76 | the root depends only on the multiset of transaction hashes |
| MerkleSpec.RootLeaves | c++/src/core/merkle_tree.cpp:42-72 | the leaves are the transaction hashes, each as often as it occurs, and for an odd number the numerically least once more |
| MerkleSpec.RootIs | c++/src/core/merkle_tree.cpp:42-72 | the tree is the one built level by level over the hashes in descending order, the least one twice if their number is odd |
| MerkleSpec.BuildIsByLevels | c++/src/core/merkle_tree.cpp:58-71 | pairing from a queue pairs neighbours level by level, the last of an odd level going to the front of the next |
| MerkleTrees.MerkleTree.SetItems | c++/src/core/merkle_tree.cpp:42-72 | sorts the items and links a heap of nodes whose root carries the specified tree; its leaves are the hashes of the items, and for an odd number the least one once more; every item hash gets a fringe node |
| MerkleTrees.MerkleTree.GetMerkleProof | c++/src/core/merkle_tree.cpp:78-82 | a proof is found exactly for hashes in the tree: a copy of the root, whose children's hashes concatenated hash to it |
| MerkleTrees.MerkleTree.GetProof | c++/src/core/merkle_tree.cpp:16-32 | climbing from any node ends at the root with the sibling pair on the right sides |
| MerkleTrees.MerkleTree.PairFront | c++/src/core/merkle_tree.cpp:59-69 | one round of the loop takes two nodes off the queue, puts one above them and keeps the heap linked |
| Limbs.CanonicalUnique | c++/src/external/bigint/bigint.cpp:73-101 | two canonical limb vectors of one value are equal |
| Limbs.SumIsAddition | c++/src/external/bigint/bigint.cpp:73-101 | the carry loop adds the values |
| Limbs.SumCanonical | c++/src/external/bigint/bigint.cpp:73-101 | sums of canonical vectors are canonical |
| Limbs.BorrowedIffLess | c++/src/external/bigint/bigint.cpp:145-182 | a borrow is left over exactly if the subtrahend is larger |
| Limbs.AddThenSubtract | c++/src/external/bigint/bigint.cpp:73-182 | adding and then subtracting restores the very limbs |
| LimbProducts.TimesIsProduct | c++/src/external/bigint/bigint.cpp:217-230 | the single-limb loop multiplies the value |
| LimbProducts.AccumulateAtAddsShifted | c++/src/external/bigint/bigint.cpp:111-134 | accumulating at limb k adds b times base^k, through any carry run |
| LimbProducts.ProductCanonical | c++/src/external/bigint/bigint.cpp:185-200 | the schoolbook product of positive canonical vectors is canonical |
| Bigints.Bigint.constructor | c++/src/external/bigint/bigint.cpp:21-36 | a machine integer becomes its base 10^9 digits, and zero the empty vector |
| Bigints.Bigint.Assign | c++/src/external/bigint/bigint.cpp:313-323 | assignment gives zero one zero limb instead |
| Bigints.Bigint.Parse | c++/src/external/bigint/bigint.cpp:38-62 | the limbs are the text read nine digits at a time from the end |
| Bigints.Bigint.AddAssign | c++/src/external/bigint/bigint.cpp:73-101 | the limbs of the sum |
| Bigints.Bigint.SubAssign | c++/src/external/bigint/bigint.cpp:145-182 | the trimmed limbs of the difference; the sign tells whether it was negative |
| Bigints.Bigint.MulAssignInt | c++/src/external/bigint/bigint.cpp:217-230 | the limbs times one limb, with no 64-bit overflow |
| Bigints.Bigint.AccumulateAssign | c++/src/external/bigint/bigint.cpp:111-134 | adds b shifted by skip limbs; terminates, and grows the vector as far as the carry goes |
| Bigints.Bigint.Mul | c++/src/external/bigint/bigint.cpp:185-200 | on positive canonical numbers a canonical vector whose value is the product; the short cut multiplies in place |
| Bigints.Bigint.PowMemo | c++/src/external/bigint/bigint.cpp:233-246 | terminates with v^n for positive v and n, and keeps every memo entry k at v^k |
| Bigints.Bigint.PowAssign | c++/src/external/bigint/bigint.cpp:248-257 | replaces the number by its power, canonically |
| Bigints.ClosestPower | c++/src/external/bigint/bigint.cpp:238-240 | the largest power of two below the exponent |
| Bigints.Bigint.Compare | c++/src/external/bigint/bigint.cpp:260-276 | integer order on canonical numbers and empty zeros, except that the two forms of zero differ |
| Bigints.Bigint.ToString | c++/src/external/bigint/bigint.cpp:380-398 | prints the decimal text of the limbs |
| Bigints.Bigint.SegmentLength | c++/src/external/bigint/bigint.cpp:410-419 | the number of decimal digits, none for zero |
| Bigints.AddWork | c++/src/core/crypto.cpp:209-213 | adds 2^difficulty to a copy, canonically |
| Decimal.ParsedIsValue | c++/src/external/bigint/bigint.cpp:38-62 | parsing any digits gives limbs of the number they spell |
| Decimal.TextSpellsValue | c++/src/external/bigint/bigint.cpp:380-398 | printing spells the value |
| Decimal.ParsedText | c++/src/external/bigint/bigint.cpp:38-398 | parsing what a canonical number prints gives back its limbs |
| BlockStores.BlockStore.SetBlock | c++/src/server/block_store.cpp:136-153 | afterwards the block is stored; entries under other ids are untouched |
| BlockStores.BlockStore.GetBlock | c++/src/server/block_store.cpp:125-134 | reads back exactly the block that was stored under its id, whatever older entries remain |
| BlockStores.BlockStore.SetTotalWork | c++/src/server/block_store.cpp:36-45 | stores the decimal text |
| BlockStores.BlockStore.GetTotalWork | c++/src/server/block_store.cpp:47-55 | parses it again; without an entry it is an exception |
| BlockStores.StillStored | c++/src/server/block_store.cpp:136-153 | writing one block leaves another readable |
| ChainSpec.StepsClosest | c++/src/server/blockchain.cpp:215-242 | scanning up finds the closest bit count |
| ChainSpec.RetargetInRange | c++/src/server/blockchain.cpp:244-256 | a retarget keeps the difficulty in 16..254 |
| ChainSpec.TrailInRange | c++/src/server/blockchain.cpp:244-256 | every difficulty a chain has asked for is in 16..254 |
| Retargets.RetargetFast | c++/src/server/blockchain.cpp:229-241 | in time or early: the fewest bits more that bring the time, doubled once per bit, above 6000 seconds, up to 254; a tie moves |
| Retargets.RetargetSlow | c++/src/server/blockchain.cpp:217-228 | late: the fewest bits less that bring the time, halved once per bit, below 12000 seconds, down to 16 |
| Retargets.RetargetOdd | c++/src/server/blockchain.cpp:229-241 | no time at all raises the difficulty to 254, a negative one leaves it |
| Retargets.ElapsedIs | c++/src/server/blockchain.cpp:247-251 | if each of the last hundred blocks comes x seconds after the one before, 100 x seconds have elapsed |
| Retargets.NextIs | c++/src/server/blockchain.cpp:244-256 | the difficulty can move after 300, 400, 500 and so on blocks, to the retarget for the last hundred |
| Retargets.WorkIs | c++/src/server/blockchain.cpp:339-339 | blocks of difficulty d are worth 2^d each |
| Retargets.RewardIs | c++/src/server/blockchain.cpp:162-177 | the reward by height: 50 coins, then 25, 12.5 and none |
| ChainSpec.RewardsBound | c++/src/server/blockchain.cpp:162-177 | the rewards after genesis up to any height, to the last unit; never more than 933,534,500,000 |
| ChainSpec.FitsIffSolvent | c++/src/server/executor.cpp:118-158 | as long as what is created fits 64 bits: no running net amount on a chain ever leaves the range of a balance if and only if each payer has what it pays to others by the net amounts so far |
| ChainSpec.RunningBalance | c++/src/server/executor.cpp:239-248 | while a block is executed on a ledger that agrees with the chain, the running net amounts are its balances modulo 2^64 |
| ChainSpec.SumsFitSolvent | c++/src/server/executor.cpp:145-148 | an executed chain on which no amount plus fee wraps is solvent |
| ChainSpec.SupplyOfChain | c++/src/server/blockchain.cpp:162-177 | on a solvent chain whose creations fit 64 bits the supply is the genesis deposits plus the rewards so far, and every balance is its net amount as an integer |
| ChainSpec.NextBlockMints | c++/src/server/blockchain.cpp:289-348 | one more block on such a chain raises the supply by exactly its mining fee |
| ChainSpec.ExactLedger | c++/src/server/executor.cpp:90-116 | a ledger that agrees with such a chain modulo 2^64 agrees with it exactly |
| ChainSpec.SameBlocksSameBalances | c++/src/server/blockchain.cpp:271-348 | the surviving blocks determine every balance |
| ChainSpec.AgreesExtends | c++/src/server/blockchain.cpp:325-343 | accepting a block keeps balances, wallets, links, index, difficulty trail, fees and exactness in agreement with the surviving blocks |
| ChainSpec.RollbackRestores | c++/src/server/executor.cpp:177-181 | undoing a recorded attempt restores every balance |
| ChainSpec.AgreesRestored | c++/src/server/blockchain.cpp:327-328 | a rejected block keeps the agreement although wallets it created stay behind |
| ChainSpec.AgreesShrinks | c++/src/server/blockchain.cpp:271-287 | undoing the last block keeps the agreement with the blocks that are left |
| ChainSpec.IndexExact | c++/src/server/tx_store.cpp:8-40 | the index names block i for a content hash exactly if a transfer of surviving block i has it |
| ChainSpec.TransfersUnique | c++/src/server/executor.cpp:218-226 | no content hash of a transfer is in two surviving blocks |
| Repeats.TransfersDistinct | c++/src/server/executor.cpp:218-226 | content hashes tell all transfers on the chain apart exactly if they do so within each block |
| Repeats.BothPaid | c++/src/server/executor.cpp:213-249 | wherever an executed block has the same transfer twice, every balance moves by it twice |
| Repeats.CopyPasses | c++/src/server/executor.cpp:213-249 | a further copy of one of its transfers, anywhere in an executed block, is asked only for what any transfer is asked for in its turn; at the end of the block it passes exactly if the payer can pay once more |
| Repeats.PaidTwice | c++/src/server/executor.cpp:213-249 | an instance: the fee and twice the same transfer, which the payer can afford |
| ChainSpec.HeaderPassed | c++/src/server/blockchain.cpp:289-323 | a block that passes has its proof of work, Merkle root, link, size and a timestamp not below the median, also once it is sorted |
| Answers.VerdictAnswered | c++/src/server/blockchain.cpp:289-323 | the answer to any block, check by check and each status exactly: 25000 transactions, number, difficulty, proof of work, link, two hours ahead, median of the last ten, Merkle root |
| Answers.VerdictAccepts | c++/src/server/blockchain.cpp:289-328 | a block is accepted exactly if it gets past these checks and passes execution in the order of its hashes for the reward that is due |
| Answers.MedianIs | c++/src/server/blockchain.cpp:302-315 | the median is the mean, with 64-bit wrap, of the fifth and sixth of the last ten timestamps in order |
| Answers.MedianUnique | c++/src/server/blockchain.cpp:308-315 | there is only one such value |
| Answers.AllVetted | c++/src/server/blockchain.cpp:289-343 | every surviving block has its number, link, size, root, proof of work, a time not below its median and one fee that pays its reward |
| Answers.SoloAnswers | c++/src/server/blockchain.cpp:188-205 | the answer to a transaction on its own, each status exactly; expired if some surviving block has a transfer with its content hash |
| ChainReplays.ReplayAgrees | c++/src/server/blockchain.cpp:325-343 | the surviving blocks execute again from an empty ledger exactly if each zero-sum transfer past genesis has a sender named before it, in an earlier block or earlier in its own; and whenever they do, they give the chain's balances, with the wallets that they name |
| ChainReplays.SurvivorPasses | c++/src/server/blockchain.cpp:289-323 | of all checks before execution a surviving block can fail only those of the difficulty asked for and of the network time |
| ChainReplays.RebuildExact | c++/src/server/blockchain.cpp:289-348 | a fresh chain that is offered the survivors one by one accepts them all exactly if they replay, none follows a lost retarget and none comes from the future; it ends up with the replayed ledger and the difficulty that is due |
| ChainSpec.SortTimesAscends | c++/src/server/blockchain.cpp:308-308 | the timestamps are put in ascending order |
| ChainSpec.AgreedIsLongest | c++/src/server/blockchain.cpp:357-364 | the agreed length is the longest prefix with trusted hashes |
| ChainSpec.KeptIs | c++/src/server/blockchain.cpp:354-371 | what a sync keeps is the genesis block and behind it the blocks before the first that differs |
| BlockChains.BlockChain.GetBlock | c++/src/server/blockchain.cpp:183-186 | answers the surviving block at that height, or is an exception outside the chain |
| BlockChains.BlockChain.MedianOfLastTen | c++/src/server/blockchain.cpp:302-315 | the median timestamp of the last ten surviving blocks |
| BlockChains.BlockChain.CheckBlock | c++/src/server/blockchain.cpp:289-323 | the verdict of all checks in their order for any block (`Answers.VerdictAnswered` says what they ask), undefined if an empty one reaches the Merkle tree; and the sorted block once the root has been computed |
| BlockChains.BlockChain.UpdateDifficulty | c++/src/server/blockchain.cpp:244-256 | at heights over 200 divisible by 100 the difficulty becomes the retarget of the last block over the last hundred |
| BlockChains.BlockChain.ExecuteOrRollback | c++/src/server/blockchain.cpp:324-328 | the status of execution; unless it is success every balance is restored, and the wallets that were created stay |
| BlockChains.BlockChain.Commit | c++/src/server/blockchain.cpp:333-343 | index, store, count, work, last hash and difficulty all move to the longer chain |
| BlockChains.BlockChain.AddBlock | c++/src/server/blockchain.cpp:289-348 | the answer to every block, each check exactly as it is asked, proof of work included; on success it is appended, the ledger is that of its execution and the difficulty is retargeted at its heights; otherwise chain, index, difficulty and every balance are unchanged, and the wallets that its execution created are exactly what it leaves |
| BlockChains.BlockChain.ResetChain | c++/src/server/blockchain.cpp:73-118 | from any state the chain becomes the genesis block alone, exactly if genesis passes its own checks |
| BlockChains.BlockChain.PopBlock | c++/src/server/blockchain.cpp:271-287 | the chain without its last block, with work, hash, index and balances to match and the new last difficulty; at two blocks it starts over from genesis |
| BlockChains.BlockChain.VerifyTransaction | c++/src/server/blockchain.cpp:188-205 | the answer to one transaction, each status exactly: expired if and only if it is signed and some surviving block has a transfer with its content hash; no balance changes |
| BlockChains.BlockChain.InitChain | c++/src/server/blockchain.cpp:59-70 | a restart finds the same blocks, count, hash and work limbs; the difficulty becomes that of the last block |
| BlockChains.BlockChain.PopUntrusted | c++/src/server/blockchain.cpp:350-371 | if the host has more work the chain is cut to its longest trusted prefix, or genesis, with the difficulty of its new last block; otherwise nothing changes; it terminates |
| BlockChains.BlockChain.CountUntrusted | c++/src/server/blockchain.cpp:357-364 | the number of blocks from the first untrusted one on |
| BlockChains.Start | c++/src/server/blockchain.cpp:36-70 | a node on empty stores comes up exactly if its genesis block loads, with that block alone |
| ChainRuns.Run | c++/src/server/blockchain.cpp:36-371 | from empty stores through any run of adds, pops, trials, restarts and sync pops: balances are the survivors' net amounts modulo 2^64; the survivors replay exactly if they are replayable, and whenever they do, to the same balances; they are hash-linked; work is the sum of 2^difficulty; the index and the supply bound hold |
| ChainRuns.ValidExplained | c++/src/server/blockchain.cpp:271-371 | every state that the operations keep is explained in this way by its surviving blocks |
| ChainRuns.Follow | c++/src/server/blockchain.cpp:289-371 | another node with the same genesis accepts all blocks of this one exactly if they are replayable, no retarget was lost and none comes from the future; then it has the same chain and balances |
| ChainRuns.AddThenPop | c++/src/server/blockchain.cpp:244-348 | adding and popping restores balances, index, count, last hash and the work limbs; the difficulty becomes that of the last block, so it comes back exactly if it was that |
| ChainRuns.LoseRetarget | c++/src/server/blockchain.cpp:244-348 | where a retarget has just moved the difficulty, adding and popping loses it: the next block is asked for the old difficulty, and once accepted no fresh node accepts this chain, at any times |
| ChainRuns.StateIsDetermined | c++/src/server/blockchain.cpp:271-348 | two states with the same survivors have the same index and balances, and the same difficulty off the retarget heights |
| Leftovers.Leftover | c++/src/server/blockchain.cpp:324-343 | on any chain: a rejected block that pays its fee to a new wallet lets the next block move nothing from that wallet, which otherwise fails; and the chain with that block cannot be replayed |
| FlatRuns.LeftoverRun | c++/src/server/blockchain.cpp:324-343 | such a run from empty stores: genesis, the rejected block, the accepted one |
| Leftovers.NotReplayable | c++/src/server/executor.cpp:140-148 | a block that moves nothing from a wallet nobody has named ends every replay |
| FlatRuns.RetargetRun | c++/src/server/blockchain.cpp:36-348 | such a run from empty stores: 300 blocks in half the expected time, one that is added and popped, and one more |
| FlatRuns.PacedChain | c++/src/server/blockchain.cpp:244-348 | the chain of 300 such blocks asks for 17 after blocks of 16 |
| FlatRuns.MedianBound | c++/src/server/blockchain.cpp:302-315 | the median timestamp is no later than the latest block |
| ChainRuns.ExistenceMatters | c++/src/server/executor.cpp:141-148 | equal balances give equal answers exactly if the sender exists in both or neither ledger |
| HeaderChains.HeaderChain.GetHash | c++/src/core/header_chain.cpp:29-32 | the hash of a block, and the null hash for the last one and beyond, also for number zero on an empty chain |
| HeaderChains.HeaderChain.Reset | c++/src/core/header_chain.cpp:34-40 | empties the chain of hashes and its work |
| HeaderChains.HeaderChain.IsValid | c++/src/core/header_chain.cpp:42-44 | answers that the last load did not fail; the comparison with zero never matters |
| HeaderChains.HeaderChain.Append | c++/src/core/header_chain.cpp:83-108 | a header is appended exactly if checkpoint, proof of work and link fit and its difficulty is not zero; with difficulty zero the program does not return |
| HeaderChains.HeaderChain.LoadBatch | c++/src/core/header_chain.cpp:82-109 | a batch is appended up to its first header that does not fit or has difficulty zero, and that one decides how it ends |
| HeaderChains.HeaderChain.Load | c++/src/core/header_chain.cpp:59-130 | a load that ends leaves the old chain with what all requests bring, or nothing and zero work: nothing exactly if a request fails or a header does not fit before any header of difficulty zero, which keeps it from ending; every header it leaves names the one before and carries its proof of work |
| HeaderChains.LoadEnds | c++/src/core/header_chain.cpp:59-130 | the three ways for a load to end, told from the answers of the host alone, and that there is no other |
| HeaderChains.HonestHostLoads | c++/src/core/header_chain.cpp:59-130 | a host with a linked chain is loaded in full from any prefix exactly if each batch that starts on a checkpoint has its hash throughout and no header has difficulty zero; only the first makes it fail, only the second keeps it from returning |
| HeaderChains.CheckPointHoldsBatch | c++/src/core/header_chain.cpp:86-94 | a batch that starts on a checkpoint passes only if all its headers have that hash |
| HeaderChains.OwnTipDiffers | c++/src/core/header_chain.cpp:29-32 | against a host with the very same chain the agreement stops one short of the tip, unless its hash is null |
| HeaderChains.LaggingChainKept | c++/src/server/blockchain.cpp:354-371 | a chain strictly behind the host is not popped |
| HeaderChains.AgreementIsShort | c++/src/core/header_chain.cpp:29-32 | the agreement ends before the host's last block, or at a null hash |
| FieldSpec.TurnedWeighs | c++/src/external/ed25519/fe.c:577-700 | shifting limbs up by any weight with the wrap times 19 multiplies by that weight modulo 2^255-19 |
| FieldSpec.ColumnsMultiply | c++/src/external/ed25519/fe.c:691-700 | the ten schoolbook columns are congruent to the product of the values |
| FieldSpec.EntryTurned | c++/src/external/ed25519/fe.c:591-700 | the factors 2, 19 and 38 of each product are those of the shifted row |
| FieldElement.Wide | c++/src/external/ed25519/fe.c:591-690 | each product of scaled 32-bit limbs fits, within one fixed bound |
| FieldElement.MulColumns | c++/src/external/ed25519/fe.c:557-700 | the hundred products add up to the columns, and no 32- or 64-bit value overflows |
| FieldElement.SqColumns | c++/src/external/ed25519/fe.c:983-1070 | the same for the fifty-five products of a square |
| FieldElement.CarryUp | c++/src/external/ed25519/fe.c:712-738 | eight carries leave the value as it is and six limbs reduced |
| FieldElement.CarryRound | c++/src/external/ed25519/fe.c:740-764 | the last four carries keep the value modulo the prime and leave all limbs within 1.01*2^25 and 1.01*2^24 |
| FieldElement.FeMul | c++/src/external/ed25519/fe.c:524-765 | for all inputs within 1.65*2^26 and 1.65*2^25 the result is the product modulo 2^255-19 within the output bounds, also when it overwrites an input |
| FieldElement.FeSq | c++/src/external/ed25519/fe.c:967-1127 | the same for the square |
| FieldElement.ReducedIsFactor | c++/src/external/ed25519/fe.c:528-533 | a result can be a factor again |
| FieldBytes.QuotientFound | c++/src/external/ed25519/fe.c:1361-1384 | the rounded top limb gives the quotient of the value by the prime, for every input within the bounds |
| FieldBytes.Quotient | c++/src/external/ed25519/fe.c:1408-1418 | one pass of shifts computes that quotient, which is -2, -1, 0 or 1 |
| FieldBytes.Digits | c++/src/external/ed25519/fe.c:1408-1450 | the limbs become the digits of the value modulo the prime |
| FieldBytes.LowHalf | c++/src/external/ed25519/fe.c:1459-1474 | the first sixteen bytes spell the first five digits |
| FieldBytes.FeToBytes | c++/src/external/ed25519/fe.c:1361-1491 | 32 bytes that spell the value modulo the prime: the canonical encoding |
| FieldBytes.EncodingsDecide | c++/src/external/ed25519/fe.c:1386-1491 | two elements are congruent exactly if their encodings are equal |
| FieldBytes.FeIsNegative | c++/src/external/ed25519/fe.c:452-466 | the lowest bit of the value modulo the prime |
| FieldBytes.FeIsNonzero | c++/src/external/ed25519/fe.c:470-520 | tells whether the value is a multiple of the prime |
| FieldBytes.FeFromBytes | c++/src/external/ed25519/fe.c:293-360 | any 32 bytes give reduced limbs of the number they spell without its top bit |
| FieldBytes.CarryOnce | c++/src/external/ed25519/fe.c:319-348 | one round of carries keeps the value modulo the prime and reduces the limbs |
| FieldBytes.CanonicalBack | c++/src/external/ed25519/fe.c:297-1491 | an encoding below the prime is read and written back as it was |
| FieldPower.SquareTimes | c++/src/external/ed25519/fe.c:364-448 | a squaring loop of n rounds doubles the exponent n times |
| FieldPower.FeInvert | c++/src/external/ed25519/fe.c:364-448 | leaves z^(2^255-21) modulo the prime, also in place |
| FieldPower.FePow22523 | c++/src/external/ed25519/fe.c:881-964 | leaves z^(2^252-3) modulo the prime, also in place |
| FieldPower.LongChain | c++/src/external/ed25519/fe.c:392-440 | the addition chain takes the exponent from 2^5-1 to 2^250-1 |
| FieldPower.MoreOnes | c++/src/external/ed25519/fe.c:392-440 | shifting in n zeros and adding n ones lengthens the run of ones |
| FieldPower.InvertInverts | c++/src/external/ed25519/fe.c:364-448 | that power is the inverse exactly if Fermat's theorem holds for the element |
| FieldPower.PrimeAndExponents | c++/src/external/ed25519/fe.c:364-448 | the prime is 2^255-19 and the exponents are p-2 and (p-5)/8 |
| Recoding.BitsSpell | c++/src/external/ed25519/ge.c:30-32 | the 256 bits spell the scalar |
| Recoding.CarryOne | c++/src/external/ed25519/ge.c:44-51 | adds one to the bits above, and runs off exactly if all are set |
| Recoding.Borrow | c++/src/external/ed25519/ge.c:41-51 | taking a bit off a digit and carrying it up keeps the value, unless the carry runs off |
| Recoding.Widen | c++/src/external/ed25519/ge.c:35-57 | a digit ends odd within 15 with four zeros behind it |
| Recoding.RestIsSmall | c++/src/external/ed25519/ge.c:34-57 | below 2^255 what is left at a nonzero digit is too small for a carry to run off |
| Recoding.Slide | c++/src/external/ed25519/ge.c:25-58 | 256 digits, each zero or odd in -15..15 and no two within five places, that spell the scalar if it is below 2^255 |
| Recoding.NibblesSpell | c++/src/external/ed25519/ge.c:394-397 | the 64 half-bytes spell the scalar |
| Recoding.Radix16 | c++/src/external/ed25519/ge.c:394-411 | 64 digits in -8..8 spell the scalar when its top byte is at most 127 |
| ScalarMult.OddTable | c++/src/external/ed25519/ge.c:77-100 | the table holds the first eight odd multiples |
| ScalarMult.DoubleScalarMult | c++/src/external/ed25519/ge.c:67-130 | the result is a*A + b*B for scalars below 2^255 |
| ScalarMult.ScalarMultBase | c++/src/external/ed25519/ge.c:386-434 | odd digits, four doublings and even digits give a*B, and every table lookup is in range |
| ScalarMult.AlternateSplit | c++/src/external/ed25519/ge.c:414-434 | the digits are sixteen times the odd ones plus the even ones, in powers of 256 |
| HashBlocks.BigEndianInverse | c++/src/external/sha256/sha2.cpp:39-45 | writing and reading big-endian words agree modulo the width |
| HashBlocks.ZeroCount | c++/src/external/sha256/sha2.cpp:193-199 | the least number of zeros that fills the last block |
| HashBlocks.WriteWords | c++/src/external/sha256/sha2.cpp:205-207 | the digest is the state words in order, most significant byte first |
| HashBlocks.DigestSpells | c++/src/external/sha256/sha2.cpp:205-207 | each word of the state is spelled, most significant byte first, at its place in the digest |
| HashBlocks.FoldFirst | c++/src/external/sha256/sha2.cpp:177-182 | the first block is folded into the initial state, then the others in order |
| Sha256.Context.Update | c++/src/external/sha256/sha2.cpp:151-183 | the context holds the fold of all whole blocks and the rest in the buffer; a chunk whose length wraps 32 bits with what is buffered is not hashed and takes bytes off instead |
| Sha256.Context.FoldBlocks | c++/src/external/sha256/sha2.cpp:168-182 | the filled buffer and all whole blocks behind it are folded in order |
| Sha256.Context.Pad | c++/src/external/sha256/sha2.cpp:199-201 | one bit, zeros and length are written inside the 128-byte buffer |
| Sha256.Context.Final | c++/src/external/sha256/sha2.cpp:185-208 | the digest of the fold over the padded message |
| Sha256.PaddedIsFips | c++/src/external/sha256/sha2.cpp:193-201 | the padding is that of FIPS 180-4 exactly for messages under 2^29 bytes |
| Sha256.PadsAsAsked | c++/src/external/sha256/sha2.cpp:193-201 | the padding is a one bit, as few zeros as will do and the length, which the program cuts to 32 bits |
| Sha256.InitialWords | c++/src/external/sha256/sha2.cpp:61-63 | the initial words are the first 32 bits of the fractional parts of the square roots of the first eight primes |
| Sha256.Hash | c++/src/external/sha256/sha2.cpp:131-138 | the whole message at once: the standard fold under 2^29 bytes |
| Sha256.HashPieces | c++/src/external/sha256/sha2.cpp:140-208 | any split into pieces below 2^32 bytes gives the digest of what the pieces leave, and of their concatenation if no piece wraps with what is buffered; under 2^29 bytes in all that is the standard digest |
| Sha256.TakenIsJoined | c++/src/external/sha256/sha2.cpp:151-183 | all of the message is hashed exactly if no piece wraps |
| Sha512.Context.Update | c++/src/external/ed25519/sha512.c:171-210 | the same for SHA-512, for any split |
| Sha512.Context.PadTail | c++/src/external/ed25519/sha512.c:232-253 | one bit and zeros up to the length, folding early exactly if they do not fit |
| Sha512.Context.Final | c++/src/external/ed25519/sha512.c:218-265 | the digest of the fold over the padded message, with no error code |
| Sha512.PaddedIsFips | c++/src/external/ed25519/sha512.c:230-256 | the padding is that of FIPS 180-4 exactly for messages under 2^61 bytes |
| Sha512.PadsAsAsked | c++/src/external/ed25519/sha512.c:230-256 | the padding is a one bit, as few zeros as will do and the length, which the program cuts to 64 bits |
| Sha512.InitialWords | c++/src/external/ed25519/sha512.c:151-160 | the initial words are the first 64 bits of the fractional parts of the square roots of the first eight primes |
| Sha512.Hash | c++/src/external/ed25519/sha512.c:267-275 | the whole message at once |
| Sha512.HashPieces | c++/src/external/ed25519/sha512.c:171-265 | any split into pieces gives the digest of the concatenation, under 2^61 bytes the standard one |
| WireFormat.TransactionRoundTrip | c++/src/core/transaction.cpp:12-43 | a transaction survives encoding and decoding exactly if its sender is the one its key gives |
| WireFormat.TransactionBack | c++/src/core/transaction.cpp:12-43 | a 149-byte record is the encoding of what it decodes to exactly if its flag is 0 or 1 |
| WireFormat.HeaderRoundTrip | c++/src/core/block.cpp:12-32 | a header survives its 116 bytes |
| WireFormat.Cursor.ReadBytes | c++/src/core/helpers.cpp:72-75 | reads the next bytes and moves on, inside the record |
| WireFormat.Cursor.WriteBytes | c++/src/core/helpers.cpp:99-102 | writes the next bytes and moves on; nothing outside the record changes |
| WireFormat.TransactionFromBuffer | c++/src/core/transaction.cpp:12-31 | reads exactly the 149 bytes of the record |
| WireFormat.TransactionToBuffer | c++/src/core/transaction.cpp:33-43 | writes exactly the 149 bytes of the record and nothing else |
| WireFormat.HeaderFromBuffer | c++/src/core/block.cpp:12-22 | reads exactly the 116 bytes of the header |
| WireFormat.HeaderToBuffer | c++/src/core/block.cpp:24-32 | writes exactly the 116 bytes of the header and nothing else |
| WireFormat.GetRawData | c++/src/server/block_store.cpp:102-123 | the encoding of the stored block, in a buffer of exactly its size |
| WireFormat.StreamRoundTrip | c++/src/core/api.cpp:137-163 | a nonempty stream of encoded blocks parses to the same number of blocks, and to the very same ones exactly if every sender is the one its key gives |
| WireFormat.ReadRawBlocks | c++/src/core/api.cpp:137-163 | reads the parse of any byte string, and stops where the program would read past its end |
| Layouts.TransactionRecord | c++/src/core/transaction.cpp:33-43 | the place of every field in the 149 bytes of a transaction |
| Layouts.BlockRecord | c++/src/core/block.cpp:24-32 | the place of every field in the 116 bytes of a header, and of the records behind it |
| Layouts.StreamOrder | c++/src/core/api.cpp:137-163 | a stream is the blocks in their order |
| Layouts.ContentHashed | c++/src/core/transaction.cpp:213-228 | the content hash covers payee, payer of a transfer, fee, amount and time, in this order |
| Layouts.TransactionHashed | c++/src/core/transaction.cpp:189-200 | the leaf hash covers the content hash and the signature of a transfer |
| Layouts.BlockHashed | c++/src/core/block.cpp:174-184 | a block hash covers root, link, the whole difficulty word and the time |
| Layouts.ByteOrder | c++/src/core/helpers.cpp:72-102 | words are spelled least significant byte first, hashes most significant byte first |

## Left out

- Bigints.Bigint.SubAssign: a subtrahend with more limbs writes before the start of the vector, so it is required not to have more; negative results keep only their sign.
- Bigints.Bigint.AddAssign: only for two positive numbers; signs are not tracked by the original's products, so negative numbers are not modelled.
- Bigints.Bigint.AccumulateAssign: the original inserts zeros through a saved iterator when skip exceeds the length, which is undefined; its own product never does that, and the model requires it.
- Bigints.Bigint.PowMemo: exponent 0 recurses for ever in the original, so the exponent is at least 1; `AddWork` would get there for a header of difficulty 0, which the header chain answers as `Endless`; no block of difficulty 0 is accepted.
- Difficulties.ComputeDifficulty: where an int product overflows the original is undefined; the model goes on with unbounded integers and answers `fits == false`.
- MerkleTrees.MerkleTree.SetItems: an empty list takes the front of an empty queue, which is undefined, so the list is required to be nonempty; a chain answers `UNDEFINED` for an empty block that gets as far. The tree is filled once, as the program does.
- MerkleSpec.SortAgain: the order that std::sort gives transactions of equal hash is fixed to that of the input; a longer list with equal hashes could come out of a second sort in another order, so `Checked`, `ChainReplays.RebuildExact` and `ChainRuns.Follow` rest on that choice for blocks with equal hashes.
- BlockChains.BlockChain.AddBlock: the block's own vector is sorted in place by the original; here the sorted block is an out-parameter. The unused `specialBlocks` and the mempool notification are not modelled.
- BlockChains.BlockChain.PopBlock: with two blocks or fewer the chain reloads genesis, whose failure is an exception; popping the genesis block itself may fail on a wallet it never debited.
- BlockChains.BlockChain.PopUntrusted: the phase that downloads and adds blocks after it is network input, and only its effect block by block is covered, by AddBlock.
- HeaderChains.HeaderChain.Load: there is no theorem that checkpoints protect anything, since the id is not advanced within a batch; the state of a chain whose load does not return is not described.
- ChainRuns.Follow: the other node gets the blocks as they are; that they survive the wire is `WireFormat.StreamRoundTrip`.
- ChainSpec.FitsIffSolvent: only as long as what is created fits 64 bits, as it does on every chain whose genesis deposits leave room for all rewards (`ChainSpec.RewardsBound`).
- FieldPower.InvertInverts: that 2^255-19 is prime, and Fermat's theorem with it, is not proved.
- FieldElement.CarryUp: shifting a negative number left is taken as multiplication, and shifting it right as rounding down, as every compiler in use does.
- FieldBytes.FeToBytes: disjoint groups of bits are put together by adding instead of by a disjunction.
- ScalarMult.ScalarMultBase: points are formal multiples of the base point; the statement is that of the free abelian group, and that the curve formulas and the precomputed table realise it is not part of the model.
- ScalarMult.DoubleScalarMult: the same, for combinations of two points.
- Recoding.Slide: for scalars of 2^255 and more only that the value is short by a multiple of 2^256 is stated.
- WireFormat.ReadRawBlocks: reading past the end of the response is undefined in the original and `None` here; its int byte count is unbounded here, so responses over 2 GB are not covered.
- Blocks and transactions are values here; the sender of a fee transaction, which the original leaves unset and never reads, does not exist.
- The chain's block count is unbounded here, and 64-bit in the original.
- LevelDB, its error statuses and its files: each store is a finite map.
- The flag of `verifyNonce` that selects the Pufferfish hash, which the node's own calls do not pass: the proof-of-work hash is one parameter.
- Threads, locks, logging, HTTP, JSON, peer discovery, rate limits, the mempool, key generation and the Pufferfish hash.
- The SHA and RIPEMD compression functions, signature validity, curve-group laws and the genesis data.
- The web and supervision code of the pool; only its counting of zeros and its check of a share are modelled.
