# A verified model of a Primecoin node and mining pool

The repository holds a Primecoin full node with the server of a mining pool. This Dafny
project models the parts of it in which state is shared between many operations, and proves
what they keep.

- **Coins and blocks** (`Coins`, `Blocks`, `BlockRules`, `Stored`, `Money`, `CoinsView`, `BlockTree`,
  `Origins`, `Branches`, `Chain`, `Amounts`). Spending and restoring outputs, connecting and
  disconnecting blocks, the layered coin cache, and the switch of the active chain. Pure functions
  say what a block does
  to a coin set; the classes `CoinsEntry`, `CoinsViewCache` and `ChainState` do it in place and
  are proved against them. The main result is that the unspent set is always the replay of the
  active chain, whatever forks were taken, up to negative versions, which the disk loses; and
  that after each block added without a failure no block not marked as failed has more work than the tip.
- **Merkle trees** (`Merkle`, `MerkleRoots`, `PartialMerkle`, `PartialMerkleSize`). The flat array,
  the recursive hash, branches, which lists share a root, and the partial trees of BIP 37 as a
  printer and a parser over shared cursors, with their size. The hash is a parameter.
- **Primes and targets** (`Primes`, `Sieve`, `Target`, `Arith`). The prime table, the sieve for
  prime chains, the retarget rule and the work of a block.
- **Check queue** (`CheckQueue`, `CheckQueueRuns`). The critical sections of the worker pool,
  and every interleaving of them as runs of a state machine.
- **Wire** (`Framing`, `SendQueue`). The incremental receiver under any chunking, the send queue
  under any pattern of short sends, and the two joined.
- **Coin database** (`VarInt`, `Compress`, `CoinsCodec`, `Formats`). Variable-length integers, short
  forms of amounts and scripts, the coins and undo data built of them, and the documented examples.
- **Memory pool** (`MemPool`). The pool, its index of spent outputs, and recursive removal.
- **Pool ledger** (`Ledger`). Shares, payout requests and payouts over the tables of the pool.
- **Address manager** (`AddrTables`, `AddrDisk`, `Eviction`, `AddrMan`). Five indexes that must agree,
  the operations on them, which entry is evicted, and saving and loading.
- **Block times** (`MedianTime`). The median time past and the rule it serves.

Hashes, bucket hashes, signature checks, the wallet and the curve of public keys are parameters
about which nothing is known. Random numbers and the answers of sockets are nondeterministic.
Loops of the code are loops with invariants; what it changes in place are fields of classes.

Where the code and its comments disagree, the model follows the code:

- Undo data and coins are written with their version as an unsigned number
  (`primeserver/src/main.h:742-757`, `primeserver/src/serialize.h:273-287`), so negative versions are
  lost, and `DisconnectBlock` does not restore what it promises. `primeserver/src/main.cpp:1455-1459`
  knows of it. `Stored.VersionLost` and `CoinsCodec.VersionLost` show the loss,
  `Stored.RestoredExactlyWhen` says exactly when there is none, and everything about chains is proved
  up to it. `VarInt.SignedRoundTrip` says which values survive.
- The comment at `primeserver/src/main.h:1203` bounds the flag bits by `2*N-1`. That is false for
  odd levels; `PartialMerkle.BitBoundFails` shows it and `PartialMerkle.BitBound` says exactly when
  it holds. The guarantee on the size at `primeserver/src/main.h:1190` fails for the same reason;
  `PartialMerkleSize.SizeBoundFails` and `PartialMerkleSize.SizeBound` say when.
- `SelectTried` (`primeserver/src/addrman.cpp:130-147`) notes a position and then moves the entry
  away from it, so it does not find the least recently tried entry. `Eviction.NewestIsSelected`
  shows it and `Eviction.OldestIsSelectedWhen` says exactly when it does find it.
- `Weave` (`primeserver/src/prime.cpp:620-624`) needs an inverse of two for every prime, two
  included, and so fails at once for an odd fixed factor; this is part of its contract.
- `TargetGetNext` (`primeserver/src/prime.cpp:249-260`) orders targets by spacing only while its
  divisor is positive; `Target.NextIsAntitone` gives the exact condition, and
  `MedianTime.NegativeSpacingOccurs` shows that block times do allow the other case.
- Two of the examples of variable-length integers (`primeserver/src/serialize.h:255-256`) are not what
  `WriteVarInt` writes; `Formats.WrongIntegerExamples` gives what it does write.

## Model

| member | source | states |
|---|---|---|
| Coins.RestoreAfterSpend | primeserver/src/main.h:1054-1068 | Restoring the output just spent gives back exactly the coins it was taken from, with height, version and coinbase flag, also when it was the last one and the coins were dropped. |
| Coins.SpendAfterRestore | primeserver/src/main.cpp:1476-1491 | Spending a restored output again gives the same coins and the same undo record. |
| Coins.SpendKeepsTidy | primeserver/src/main.h:917-922 | Spending leaves no spent output at the end and blanks the others. |
| Coins.TidyIsPruned | primeserver/src/main.h:1083-1089 | Tidy coins are entirely spent exactly when they have no outputs left. |
| Blocks.SpendInputFrame | primeserver/src/main.cpp:1288-1302 | Spending one output leaves every other output, and the metadata it needs, as it was. |
| Blocks.RestoreAfterSpendInputs | primeserver/src/main.cpp:1473-1491 | Restoring all inputs of a transaction from its undo records gives back the coin set they were spent from. |
| Blocks.RemoveAfterAdd | primeserver/src/main.cpp:1442-1471 | Taking away the outputs a transaction added gives back the coin set without it. |
| Blocks.ConnectTxFacts | primeserver/src/main.cpp:1604-1645 | Connecting one transaction keeps the coin set well formed, and its undo record takes exactly this step back. |
| Blocks.ConnectTxsKeys | primeserver/src/main.cpp:1604-1645 | Connecting transactions adds coins under no hash but theirs. |
| Blocks.DisconnectTxsAfterConnectTxs | primeserver/src/main.cpp:1437-1492 | For every list of transactions, spends within the list included, disconnecting after connecting is clean and restores the coin set, with undo data as it is before it is written to disk. |
| Blocks.DisconnectAfterConnect | primeserver/src/main.cpp:1423-1508 | With undo data as it is before it is written, disconnecting a block that connects is clean and restores the unspent set with heights, flags and versions. Stored.DisconnectStored says what becomes of it on disk. |
| Blocks.UndoOfConnect | primeserver/src/main.cpp:1636-1640 | Undo data that connecting writes never holds a null output. |
| Stored.SpendInputsFade | primeserver/src/main.cpp:1288-1302 | Spending from coins that lost negative versions leaves the same coins up to those versions, and undo data that reads back the same. |
| Stored.CheckInputsFades | primeserver/src/main.cpp:1337-1390 | Whether inputs may be spent does not depend on versions lost before. |
| Stored.ConnectFades | primeserver/src/main.cpp:1542-1710 | Whether a block connects, the undo data read back later and the money it moves do not depend on versions lost before; the coin sets differ by no more. |
| Stored.RestoreStoredInputs | primeserver/src/main.cpp:1473-1491 | With undo data that was on disk, restoring the inputs of a transaction is clean; what was used up comes back with the version the disk returns, all else with the version it had. |
| Stored.RemoveFaded | primeserver/src/main.cpp:1453-1471 | The outputs of a transaction are recognised and removed even if its negative version was lost, because the code adjusts the version before it compares. |
| Stored.DisconnectStored | primeserver/src/main.cpp:1423-1508 | For every block that connects and every coin set that lost no more than negative versions, disconnecting with the undo data that was on disk is clean, and the coin set that results is given exactly. |
| Stored.RestoredExactlyWhen | primeserver/src/main.cpp:1455-1459 | Connecting and disconnecting a block restores the unspent set exactly if and only if no coins that the block used up have a negative version. |
| Stored.VersionLost | primeserver/src/main.cpp:1455-1459 | A block that spends the only output of a transaction of version -1 leaves version 127 behind when it is disconnected. |
| Money.TotalStore | primeserver/src/main.cpp:1288-1302 | What replacing the coins of one transaction does to the total value of the unspent set. |
| Money.TotalAfterSpends | primeserver/src/main.cpp:1288-1302 | Spending inputs lowers the total by exactly their value. |
| Money.TotalAfterConnect | primeserver/src/main.cpp:1604-1665 | A connected block changes the total value of the unspent set by exactly its value out less its value in. |
| Money.GrowthIsAtMostMint | primeserver/src/main.cpp:1648-1652 | No connected block adds more than its subsidy: the coinbase is at most subsidy plus fees, and fees are only handed on. |
| Money.MintBound | primeserver/src/prime.cpp:224-241 | The subsidy times the squared target length is at most 999 coins. |
| Money.MintIs | primeserver/src/prime.cpp:224-241 | From the minimum length on the subsidy is a whole number of cents. Times the squared target it is at most 999 coins, and with one more cent it is above that, up to the rounding of the first division. |
| BlockRules.LawfulWhen | primeserver/src/main.cpp:1337-1390 | The inputs of a transaction pass exactly when all are there, none is of a coinbase before 3000 blocks, every value and the sum are in the range of money, and a cent is left for each 1000 bytes started. |
| BlockRules.MinFeeIs | primeserver/src/main.cpp:605-640 | The fee is one cent for each 1000 bytes started, and at most all money. |
| BlockRules.ConnectedObeys | primeserver/src/main.cpp:1604-1645 | In every block that connects each transaction but the coinbase keeps these rules on the coins that the block before and the transactions before it leave. |
| BlockRules.NoDoubleSpendInBlock | primeserver/src/main.cpp:1620-1640 | No two transactions of a block that connects spend the same output. |
| BlockRules.CoinBaseLimit | primeserver/src/main.cpp:1648-1652 | A block whose transactions pass connects exactly when what its coinbase pays, with the fee for its size, is at most the subsidy, the fees of the other transactions and one cent. |
| BlockRules.ConnectedStem | primeserver/src/main.cpp:1288-1302 | After a block every entry of the unspent set is what is left of an earlier one or of a transaction of the block, at the height of the block. |
| Origins.ReplayOrigin | primeserver/src/main.cpp:1748-1790 | On every branch that replays, all unspent coins are what is left of the outputs of one transaction in one block of the branch, with the height of that block. |
| Origins.CoinBaseMatures | primeserver/src/main.cpp:1351-1358 | Along every branch that replays, an output of a coinbase is spent no less than 3000 blocks above the block of the branch that mined it. |
| CoinsView.CoinsEntry.Cleanup | primeserver/src/main.h:917-922 | Dropping null outputs from the back leaves exactly the outputs up to the last unspent one. |
| CoinsView.CoinsEntry.Spend | primeserver/src/main.h:1054-1068 | Spends an available output in place and returns its undo record, with metadata if it was the last; otherwise changes nothing. |
| CoinsView.CoinsEntry.Restore | primeserver/src/main.cpp:1476-1491 | Puts an output back in place and reports whether the undo record fitted. |
| CoinsView.LiveStore | primeserver/src/main.cpp:1444-1470 | Comparing coin sets by unspent outputs: an entirely spent entry left in the cache is the same as a missing one. |
| CoinsView.CoinsViewCache.GetCoins | primeserver/src/main.cpp:197-219 | Looking coins up through any number of layers finds what the layers hold together and changes it not at all, although it copies entries. |
| CoinsView.CoinsViewCache.BatchWrite | primeserver/src/main.cpp:247-252 | Written changes win over what was there, and the best block is taken over. |
| CoinsView.CoinsViewCache.Flush | primeserver/src/main.cpp:254-259 | Pushing the changes one layer down loses nothing: the layer below then holds what was seen above, and the cache is empty. |
| CoinsView.CoinsViewCache.WriteBatch | primeserver/src/txdb.cpp:14-19 | A batch erases from the coin database what is entirely spent and keeps the rest as it is read back later. |
| CoinsView.CoinsViewCache.FlushToDisk | primeserver/src/main.cpp:1811-1812 | Pushing the changes into the coin database loses nothing of the unspent set but negative versions. |
| CoinsView.LiveWritten | primeserver/src/txdb.cpp:58-69 | The unspent set of a coin database after a batch is that of the entries written, up to negative versions. |
| CoinsView.CoinsViewCache.UpdateCoins | primeserver/src/main.cpp:1288-1302 | On the layered cache, spends all inputs and adds the outputs, and returns the undo records, as specified on coin sets. |
| CoinsView.CoinsViewCache.InputsPass | primeserver/src/main.cpp:1337-1390 | Accepts exactly when all inputs are there and mature, their values and sum are in range, and the fee suffices; returns the value in. |
| CoinsView.CoinsViewCache.ConnectTransactions | primeserver/src/main.cpp:1562-1652 | On the layered cache, connects a block exactly when the specification does, with the same coins, undo data and money change; reports whether every transaction passed. |
| CoinsView.CoinsViewCache.DisconnectTransactions | primeserver/src/main.cpp:1423-1508 | On the layered cache, is clean exactly when the specification takes the block back, and then leaves the specified coins. |
| CoinsView.RestoreOneMeans | primeserver/src/main.cpp:1476-1491 | Restoring on cache entries, empty leftovers included, is restoring on the unspent set, with the same result. |
| CoinsView.RemoveOneMeans | primeserver/src/main.cpp:1442-1471 | Comparing and emptying the entry of a transaction is removing its outputs from the unspent set, with the same result. |
| CoinsView.PartialValueIn | primeserver/src/main.cpp:1366-1380 | A partial sum of input values never exceeds the whole, so the early range test never rejects a sum in range. |
| CoinsView.InputsPassMeans | primeserver/src/main.cpp:1337-1390 | The tests made input by input together are the rule for the whole transaction. |
| BlockTree.AncestorsLinear | primeserver/src/main.cpp:1716-1742 | The ancestors of a block form a line, on which heights and chain work grow. |
| BlockTree.ReplayIsValid | primeserver/src/main.cpp:1748-1790 | Replaying the blocks of any branch from genesis keeps the coin set well formed. |
| BlockTree.ReplayGrow | primeserver/src/main.cpp:1904-1935 | New blocks in the index change the replay of no branch that was there. |
| BlockTree.UndoTakesBack | primeserver/src/main.cpp:1748-1764 | Undo data that was on disk takes the coins of a block back to those of its predecessor, up to negative versions, whatever versions were lost before. |
| BlockTree.ExtendReplays | primeserver/src/main.cpp:1766-1782 | Connecting a block to the coins of its branch, lost versions or not, succeeds exactly when the longer branch replays, and gives that replay up to lost versions, fitting undo data and the right money supply. |
| BlockTree.ReplayIsPlain | primeserver/src/main.cpp:1748-1790 | If no transaction of a branch has a negative version, none of its unspent coins has. |
| BlockTree.PlainReplay | primeserver/src/main.cpp:1455-1459 | Then coins that agree with the replay up to lost versions are the replay. |
| BlockTree.SupplyGrowth | primeserver/src/main.cpp:1656-1665 | Along every branch that replays, a block adds at most its subsidy to the money supply on record. |
| BlockTree.CheckedSupply | primeserver/src/main.cpp:1654-1665 | The supply recorded for a block whose transactions pass, even if the block is refused after that, is that of its predecessor and what the block really adds. |
| BlockTree.WorkGrow | primeserver/src/main.cpp:1916-1921 | If every block before has as chain work the sum of the work of all blocks that lead to it, a new block that adds its own work to that of its predecessor has so too. |
| BlockTree.NextMeansMain | primeserver/src/main.h:1779-1783 | With pnext set along the active chain only, a block has a successor or is the tip exactly when it is on that chain. |
| BlockTree.NextAfterConnect | primeserver/src/main.cpp:1823-1826 | Setting pnext of the predecessor keeps pnext exact for the longer chain. |
| BlockTree.NextAfterDisconnect | primeserver/src/main.cpp:1818-1821 | Clearing pnext of the predecessor keeps pnext exact for the shorter chain. |
| Branches.PathMembers | primeserver/src/main.cpp:1726-1742 | The blocks on the way down to the fork are exactly those above it. |
| Branches.NotShared | primeserver/src/main.cpp:1719-1742 | The blocks connected are exactly those of the new branch that the old one lacks. |
| Branches.OnePerHeight | primeserver/src/main.cpp:1046-1061 | The active chain has one block at each height. |
| Branches.ForkStep | primeserver/src/main.cpp:1719-1724 | Stepping back from the higher of two blocks loses no common ancestor. |
| Branches.StepForward | primeserver/src/main.cpp:1053-1058 | Following pnext from a block of the active chain leads one height up on that chain. |
| Branches.NoneFailedAbove | primeserver/src/main.cpp:1201-1219 | Where the walk down from a candidate meets the active chain and has met no failed block, none is failed on the whole branch. |
| Branches.CollectedStep | primeserver/src/main.cpp:1218-1219 | One more step of the walk down collects the block exactly if it has more work than the tip. |
| Branches.CollectedAll | primeserver/src/main.cpp:1221-1223 | Where the walk down ends, at a block of the active chain or the first one, no block further down has more work than the tip. |
| Branches.ExplainedStep | primeserver/src/main.cpp:1204-1212 | Marking what is above a block marked before leaves no mark unexplained. |
| Branches.GrowRecords | primeserver/src/main.cpp:1904-1935 | Undo data, money supply and pnext stay right when the tree of blocks grows. |
| Chain.ChainState.constructor | primeserver/src/main.cpp:39-47 | A node without blocks starts in a state that keeps all invariants. |
| Chain.ChainState.DisconnectBlock | primeserver/src/main.cpp:1423-1508 | With the undo data that was on disk, taking back the tip of a view never fails and leaves the replay of the predecessor up to negative versions; the coin set that results is given exactly. |
| Chain.ChainState.ConnectBlock | primeserver/src/main.cpp:1542-1710 | Succeeds exactly when verified and the branch replays, whatever versions were lost before. Records undo data once, as it is read back later, and the money supply exactly when all transactions passed; touches no other record. |
| Chain.ChainState.FindFork | primeserver/src/main.cpp:1717-1724 | Finds the last block both branches share: every other shared one is below it. |
| Chain.ChainState.PathDown | primeserver/src/main.cpp:1726-1742 | Collects the blocks between two blocks of one branch, in order. |
| Chain.ChainState.DisconnectBranch | primeserver/src/main.cpp:1748-1764 | Taking back the old branch above the fork leaves the replay of the fork, up to negative versions. |
| Chain.ChainState.ConnectBranch | primeserver/src/main.cpp:1766-1782 | Connecting the new branch succeeds exactly when every block is verified and the branch replays; on failure it names a block of the branch. |
| Chain.ChainState.UpdateNext | primeserver/src/main.cpp:1818-1826 | Resetting pnext along the old branch and setting it along the new one makes it exact for the new chain. |
| Chain.ChainState.SetBestChain | primeserver/src/main.cpp:1712-1852 | For every known block and whatever blocks are marked as failed: succeeds exactly when the new branch is acceptable. The unspent set of the tip view is then the replay of the new branch up to negative versions, and exactly if the branch has none, and all of it is on disk if the cache was to be flushed; a failed switch changes neither chain nor coins, and marks exactly one block as failed, one that cannot be connected. Undo data once written stays. |
| Chain.ChainState.IsInMainChain | primeserver/src/main.h:1779-1783 | True exactly for the ancestors of the best block, itself included. |
| Chain.ChainState.BestCandidate | primeserver/src/main.cpp:1193-1199 | The last candidate in the order of chain work: none has more work. |
| Chain.ChainState.MarkDescendants | primeserver/src/main.cpp:1204-1212 | Marks as failed exactly the blocks from the candidate down to, but without, the failed ancestor; the candidates stay all blocks that are not failed. |
| Chain.ChainState.CheckAncestry | primeserver/src/main.cpp:1198-1219 | Returns a failed block among those on the way down, or else exactly the blocks of the branch with more work than the tip, best first; in that case no block of the branch is failed unless one of the active chain is. |
| Chain.ChainState.ConnectBestBlock | primeserver/src/main.cpp:1187-1237 | Terminates and keeps every invariant, among them that the candidates are all blocks not marked as failed. When it succeeds, no block that is not failed has more chain work than the tip. The tip only gives way to more work. Every block newly marked as failed is above one that was marked before, except, when it fails, the one that was refused and cannot be connected. As long as no failed block is on the active chain, none gets there, and a failure marks one more block. |
| Chain.ChainState.DropFailed | primeserver/src/main.cpp:1203-1215 | A candidate above a failed block is marked and dropped, with the blocks between them and no other. |
| Chain.ChainState.AttachAll | primeserver/src/main.cpp:1222-1233 | Switches to one block after the other: with success the tip is the last of them and nothing was marked; otherwise exactly one more block is marked, which was refused, and the tip stayed or is one of them. |
| Chain.ChainState.FindBlockByHeight | primeserver/src/main.cpp:1046-1061 | Whichever of the three starting points is nearest, finds the one block of the active chain at the height. |
| Chain.ChainState.AddToBlockIndex | primeserver/src/main.cpp:1904-1935 | A new block joins the index with its predecessor, its height and the chain work of its predecessor plus its own work, and no other entry changes; a known block is refused unchanged. Then no block that is not failed has more work than the tip, or one was refused and marked, and nothing else is marked but what was above a failed block. |
| Chain.ChainState.InvalidBlockFound | primeserver/src/main.cpp:1176-1185 | A block found invalid is failed and no candidate any more. |
| Target.SetFractionalDifficulty | primeserver/src/prime.cpp:197-208 | Fails exactly below the minimum; otherwise sets the fraction for the difficulty and keeps the length. |
| Target.SetAfterGet | primeserver/src/prime.cpp:192-208 | Setting the fractional difficulty just read changes nothing, for every target. |
| Target.DifficultyRange | primeserver/src/prime.cpp:192-195 | Every fraction stands for a difficulty between the minimum and the maximum. |
| Target.GetNext | primeserver/src/prime.cpp:244-276 | Fails exactly for a divisor of zero; otherwise gives the target that StepLands and NextDifficultyIs describe. |
| Target.StepLands | primeserver/src/prime.cpp:262-276 | A difficulty over 256 leads to the start of the next length, one of 1 above the minimum length to the difficulty 256 of the length below, and every other to the least fraction of the same length that is as difficult. |
| Target.StepDown | primeserver/src/prime.cpp:268-271 | From the start of a length a step down lowers the target by 0x10000, one part in 256 of a length. |
| Target.FractionForIsLeast | primeserver/src/prime.cpp:197-208 | The fraction set for a difficulty is the least one whose difficulty is as high; the difficulty of a fraction is the maximum over what is left of the length. |
| Target.NextDifficultyIs | primeserver/src/prime.cpp:249-260 | For a positive divisor, the next difficulty is the old one scaled by (interval + 1) * spacing over (interval - 1) * spacing + 2 * actual, rounded down and kept within its limits. |
| Target.StepBounds | primeserver/src/prime.cpp:262-276 | The length never falls below the minimum and moves by at most one. |
| Target.NextDifficultyAntitone | primeserver/src/prime.cpp:249-260 | With a positive divisor a longer spacing never makes the next difficulty higher. |
| Target.LowestWhen | primeserver/src/prime.cpp:249-260 | The lowest difficulty comes next exactly when the divisor is negative or exceeds the dividend over the minimum. |
| Target.NextIsAntitone | primeserver/src/prime.cpp:244-276 | For all spacings with a divisor other than zero, the longer one gives no harder target exactly when the divisor of the shorter one is positive, or that of the longer one negative or large enough to give the minimum. |
| Target.NegativeSpacingBreaksOrder | primeserver/src/prime.cpp:249-260 | A spacing of nearly minus a million seconds, for which the divisor is negative, makes the target easier than an on-target spacing. |
| Target.OnTargetIsFixedPoint | primeserver/src/prime.cpp:244-276 | On-target spacing leaves the target as it is exactly for difficulties above the minimum and up to the threshold, and at the bottom of the lowest length. |
| Target.WorkRange | primeserver/src/main.cpp:2218-2238 | The work of a block k lengths above the minimum lies between 256 * 32^k and 256 * 32^(k+1). |
| Target.WorkIsMonotone | primeserver/src/main.cpp:2218-2238 | From the minimum length on, a harder target stands for at least as much work. |
| Target.WorkIs | primeserver/src/main.cpp:2218-2238 | The work is that of the length times 32 d over 31 + d, rounded down, for a difficulty d between 1 and the maximum. |
| Target.WorkOfLength | primeserver/src/main.cpp:2218-2238 | At the start of a length the work is 256 times 32 for each length above six. |
| Target.WorkGrowsWhen | primeserver/src/main.cpp:2218-2238 | Within a length a difficulty higher by enough for one unit of work gives strictly more work. |
| Target.GetBlockWork | primeserver/src/main.cpp:2218-2238 | The loop computes the work of the target. |
| Merkle.WidthIsShift | primeserver/src/main.h:1222-1224 | The width by shifting is the width by halving and rounding up, level by level. |
| Merkle.BuildMerkleTree | primeserver/src/main.h:1399-1416 | The flat array holds at its offset for each level exactly the recursive hashes of that level, for every number of transactions; its last entry is the recursive root. |
| Merkle.GetMerkleBranch | primeserver/src/main.h:1424-1438 | Reads from the array the partners on the way up from a transaction. |
| Merkle.CheckMerkleBranch | primeserver/src/main.h:1440-1453 | Climbs from a digest along a branch; index -1 gives zero. |
| Merkle.BranchLeadsToRoot | primeserver/src/main.h:1424-1453 | The branch of every node leads from it to the root, and has as many entries as levels are above it. |
| Merkle.BranchIsUnique | primeserver/src/main.h:1440-1453 | Under an injective hash no other digest and no other branch of that length lead to the root. |
| Merkle.CheckedExactlyWhenMember | primeserver/src/main.h:1440-1453 | Under an injective hash a branch checks at an index exactly for the transaction there and its own branch. |
| MerkleRoots.SameFirstLeaf | primeserver/src/main.h:1399-1416 | Under an injective hash two nodes of one height with one digest have the same first transaction below them. |
| MerkleRoots.NodesDiffer | primeserver/src/main.h:1399-1416 | In a list without repetitions no two nodes of a level have one digest. |
| MerkleRoots.RootDeterminesList | primeserver/src/main.h:1399-1416 | Under an injective hash, lists with trees of one height have the same root exactly when they are equal, if neither repeats a transaction or if they are equally long. |
| MerkleRoots.RepeatedTail | primeserver/src/main.cpp:2103-2110 | Repeating the last of an odd number of transactions changes neither root nor height, which is why repeated transactions must be refused. |
| MerkleRoots.InnerNodeAsLeaf | primeserver/src/main.h:1399-1416 | A list of the one digest of an inner node has the root of the two transactions below that node: the height matters. |
| PartialMerkle.ParsePrinted | primeserver/src/main.cpp:2398-2444 | Parsing what was printed for any subtree, wherever it stands in the streams, gives its digest and its matched transactions and moves the cursors past it. |
| PartialMerkle.ExtractBuilt | primeserver/src/main.cpp:2462-2493 | For every list of 1 to MAX_BLOCK_SIZE / 60 transactions and every mask, extraction passes all checks, bits padded to bytes or not, and gives the full root and exactly the matched transactions in order. |
| PartialMerkle.ParseIsSound | primeserver/src/main.cpp:2416-2444 | For arbitrary bits and hashes and an injective hash, a subtree with the right digest contains only transactions of the list, each at the leaf visited. |
| PartialMerkle.ExtractIsSound | primeserver/src/main.cpp:2462-2493 | If extraction from arbitrary bits and hashes gives the root of a list, every transaction found is in the list at the position visited. |
| PartialMerkle.SizeBounds | primeserver/src/main.h:1192-1203 | At most as many hashes as transactions and as one plus matches times height; at most one plus twice that product bits. |
| PartialMerkle.BitCount | primeserver/src/main.h:1203 | The exact number of bits: twice the hashes less one, plus one for each node on a match path with a single child. |
| PartialMerkle.SingleChildrenWhen | primeserver/src/main.h:1203 | Such nodes occur exactly below a last node when some level has an odd last node that leads to a match. |
| PartialMerkle.BitBound | primeserver/src/main.h:1203 | The bound of 2N-1 bits holds exactly when no level has an odd last node that leads to a match. |
| PartialMerkle.BitBoundFails | primeserver/src/main.h:1203 | Three transactions with the last one matched need four bits for two hashes. |
| PartialMerkleSize.SingleChildrenCount | primeserver/src/main.h:1203 | The single children below a node are as many as there are levels with an odd last node that leads to a match, and there are none below any node but a last one. |
| PartialMerkleSize.SizeBound | primeserver/src/main.h:1189-1204 | For the trees of blocks, the exact number of bits, and the exact condition under which the serialized size is at most 10 + ceil(32.25 * N) for N hashes. |
| PartialMerkleSize.SizeBoundFails | primeserver/src/main.h:1189-1191 | With 1012 transactions, all matched, the size is 32648 bytes, one more than the documented bound. |
| PartialMerkle.PartialMerkleTree.constructor | primeserver/src/main.cpp:2446-2458 | Writes exactly the specified bits and hashes of the whole tree. |
| PartialMerkle.PartialMerkleTree.TraverseAndBuild | primeserver/src/main.cpp:2398-2414 | Appends exactly the specified bits and hashes of a subtree. |
| PartialMerkle.PartialMerkleTree.TraverseAndExtract | primeserver/src/main.cpp:2416-2444 | Moves the shared cursors, collects transactions and sets the bad flag exactly as the parser specifies, on any input. |
| PartialMerkle.PartialMerkleTree.ExtractMatches | primeserver/src/main.cpp:2462-2493 | Returns root and matches when every check passes and zero otherwise. |
| PartialMerkle.PackThenUnpack | primeserver/src/main.h:1241-1254 | Writing bits into bytes and reading them back gives the bits padded to whole bytes. |
| PartialMerkle.BitWeight | primeserver/src/main.h:1241-1254 | A flag bit is the bit of its byte of weight two to its position within the byte. |
| Primes.GeneratePrimeTable | primeserver/src/prime.cpp:15-31 | The table holds exactly the primes below the limit, in increasing order. |
| Primes.CompositeHasFactor | primeserver/src/prime.cpp:19-24 | A number below the limit is composite exactly when a factor no larger than its square root divides it. |
| Primes.Bezout | primeserver/src/prime.cpp:618-624 | Euclid: the greatest common divisor is a combination of the two numbers. |
| Primes.InverseExists | primeserver/src/prime.cpp:618-624 | Modulo a prime an inverse exists exactly for numbers the prime does not divide. |
| Primes.ModInverse | primeserver/src/prime.cpp:618-624 | Finds an inverse, and fails exactly when there is none. |
| Sieve.SolvedMultiplier | primeserver/src/prime.cpp:626-634 | A chain member F * m * 2^k + delta is divisible by p exactly when m leaves the solved remainder. |
| Sieve.InverseOfDouble | primeserver/src/prime.cpp:635-637 | Multiplying by the inverse of two gives the inverse for the next chain position. |
| Sieve.NoHits | primeserver/src/prime.cpp:613-616 | A prime that divides the fixed factor divides no chain member. |
| Sieve.MarkProgression | primeserver/src/prime.cpp:626-634 | Marks exactly the multipliers with the solved remainder and leaves the other marks. |
| Sieve.SieveOfEratosthenes.Weave | primeserver/src/prime.cpp:600-644 | Keeps each of the three bitmaps exact: a multiplier is marked just when a prime woven so far divides one of the covered chain members. Fails exactly when the primes below the size are used up, or at 2 for an odd fixed factor. |
| Sieve.SieveOfEratosthenes.WeavePrime | primeserver/src/prime.cpp:619-640 | Adds to each bitmap exactly the multipliers for which the prime divides a covered chain member. |
| Sieve.SieveOfEratosthenes.GetNextCandidateMultiplier | primeserver/src/prime.h:148-177 | Finds the next open multiplier, skips none, names the widest chain type it is open for, and starts over at the end. |
| Sieve.SieveOfEratosthenes.ScanAll | primeserver/src/prime.h:148-177 | A whole scan meets every open multiplier but zero once, in order. |
| Sieve.SieveOfEratosthenes.GetCandidateCount | primeserver/src/prime.h:131-142 | Counts the open multipliers. |
| Sieve.SieveOfEratosthenes.CountExceedsScan | primeserver/src/prime.h:131-177 | The count includes the multiplier zero, which the scan never meets. |
| CheckQueue.CheckQueue.Section | primeserver/src/checkqueue.h:69-111 | From taking the lock to waiting, returning or leaving with a batch: the new counters, the batch and whether another thread is told. |
| CheckQueue.BatchLengthIsLargest | primeserver/src/checkqueue.h:94-100 | A batch is the largest within the limit and within an equal share for all threads and one more, but at least one check. |
| CheckQueue.CheckQueue.TakeBatch | primeserver/src/checkqueue.h:101-108 | Takes the end of the queue, last check first. |
| CheckQueue.CheckQueue.Add | primeserver/src/checkqueue.h:136-147 | Checks added are queued and counted. |
| CheckQueueRuns.ExecuteBatch | primeserver/src/checkqueue.h:113-116 | A batch succeeds exactly when all its checks hold. |
| CheckQueueRuns.SectionCounts | primeserver/src/checkqueue.h:69-111 | One critical section of any thread keeps the counters exact. |
| CheckQueueRuns.SectionOutcome | primeserver/src/checkqueue.h:71-91 | One critical section keeps the result exact, and a returning master returns whether all checks added hold. |
| CheckQueueRuns.StepKeeps | primeserver/src/checkqueue.h:61-147 | Every step of any thread keeps the invariant of the whole system. |
| CheckQueueRuns.CountersInEveryRun | primeserver/src/checkqueue.h:61-147 | In every interleaving nTodo is queued plus in-flight checks and nTotal - nIdle the threads that hold a batch. |
| CheckQueueRuns.WaitReturns | primeserver/src/checkqueue.h:131-133 | Wait returns true exactly when every check added holds, and leaves nothing queued or in flight. |
| CheckQueueRuns.ReadyForControl | primeserver/src/checkqueue.h:164-171 | Before checks are added the state is as a new control object asserts it. |
| CheckQueueRuns.MasterIsNotForgotten | primeserver/src/checkqueue.h:73-94 | While the master sleeps and was not told to wake up, some worker still holds checks to report. |
| CheckQueueRuns.SomethingToDo | primeserver/src/checkqueue.h:61-118 | While the master is inside, some productive step is always possible. |
| CheckQueueRuns.MeasureDecreases | primeserver/src/checkqueue.h:61-118 | Every productive step brings the end nearer, and no other step moves it away. |
| Framing.FeedChunks | primeserver/src/net.cpp:627-653 | Feeding a stream in two chunks gives the same messages as feeding it at once. |
| Framing.FeedInAnyChunks | primeserver/src/net.cpp:627-653 | Feeding a stream chunk by chunk, however it is cut, gives the same messages as feeding it at once. |
| Framing.FeedKeeps | primeserver/src/net.cpp:627-696 | While headers are acceptable the messages are made of exactly the bytes fed, and all but the last are complete. |
| Framing.FeedMessages | primeserver/src/net.cpp:627-696 | The bytes of any complete messages, fed to a receiver, give these messages. |
| Framing.NetMessage.ReadHeader | primeserver/src/net.cpp:655-685 | Takes at least one byte of header, turns to the body once it is full, and refuses exactly a size above the limit. |
| Framing.NetMessage.ReadData | primeserver/src/net.cpp:687-696 | Takes at least one byte of body, and never more than is missing. |
| Framing.Receiver.Pass | primeserver/src/net.cpp:630-650 | One pass of the loop consumes at least one byte and does what feeding those bytes one by one does. |
| Framing.Receiver.ReceiveMsgBytes | primeserver/src/net.cpp:627-653 | The outcome of a chunk, messages and failure alike, is that of feeding it byte by byte. |
| SendQueue.Sender.SocketSendData | primeserver/src/net.cpp:707-747 | For every sequence of answers of the socket the queue keeps wire plus rest equal to all that was queued, counts the rest right and holds its assertions. The entries are offered in order from where the last call ended, as long as each is taken whole; the connection ends exactly after an error other than the four that mean to try again. |
| SendQueue.Sender.SendFront | primeserver/src/net.cpp:713-717 | What the socket takes of the first entry goes to the wire, in order. |
| SendQueue.Sender.EndMessage | primeserver/src/net.h:410-446 | Queues the message with size and checksum filled in, sends at once exactly if nothing was waiting, and queues nothing for a dropped or missing message. |
| SendQueue.Ended | primeserver/src/net.h:422-433 | Filling in size and checksum changes only those fields and makes a frame whose header tells the size of its body. |
| SendQueue.PeerReceives | primeserver/src/net.cpp:707-747 | What a receiver makes of the bytes sent so far are the first messages queued, with no header refused, and all of them once the queue is empty. |
| MedianTime.GetMedianTimePast | primeserver/src/main.h:1793-1805 | The element picked after sorting is the median of the last 99 times, or of all if there are fewer. |
| MedianTime.Sort | primeserver/src/main.h:1803 | Sorts the filled part of the array and leaves the rest. |
| MedianTime.MedianIsUnique | primeserver/src/main.h:1793-1805 | A window has one median. |
| MedianTime.MedianDoesNotDecrease | primeserver/src/main.cpp:2148-2150 | A block not below the median of its parent does not lower the median, while the window fills and once it slides. |
| MedianTime.MediansNeverDecrease | primeserver/src/main.cpp:2148-2150 | Along every chain that obeys the rule the median time past never decreases. |
| MedianTime.NegativeSpacingOccurs | primeserver/src/main.cpp:2148-2150 | The rule allows times whose spacing is negative enough to make the next target easier than an on-target spacing does. |
| VarInt.ParseEncoded | primeserver/src/serialize.h:273-302 | Every integer is read back from its encoding, whatever follows. |
| VarInt.OneEncoding | primeserver/src/serialize.h:237-249 | No redundancy: what is read as an integer is its one encoding. |
| Formats.EncodedIsWorth | primeserver/src/serialize.h:237-243 | An integer is the sum of its digits to base 128, each but the last worth one more; all bytes but the last have their highest bit set. |
| Formats.IntegerExamples | primeserver/src/serialize.h:252-257 | The documented examples that are right. |
| Formats.WrongIntegerExamples | primeserver/src/serialize.h:255-256 | The documented bytes for 16511 and for 65535 are not what the code writes. |
| VarInt.SignedRoundTrip | primeserver/src/serialize.h:273-302 | A signed integer is read back exactly when it is not negative; of a negative one a single byte is left. |
| VarInt.Stream.WriteVarInt | primeserver/src/serialize.h:273-287 | Writes the encoding; the buffer for the digits never overflows. |
| VarInt.Stream.ReadVarInt | primeserver/src/serialize.h:290-302 | Reads an integer, wrapped to its type, or fails at the end of the stream. |
| VarInt.GetSizeOfVarInt | primeserver/src/serialize.h:260-270 | The size computed is the number of bytes written. |
| Compress.DecompressCompressed | primeserver/src/main.cpp:4847-4898 | Every amount is recovered from its code. |
| Compress.CompressDecompressed | primeserver/src/main.cpp:4847-4898 | Every number is the code of exactly one amount. |
| Compress.CodeBound | primeserver/src/main.cpp:4855-4872 | The code is at most nine times the amount, so up to MAX_MONEY nothing overflows 64 bits. |
| Formats.AmountExample | primeserver/src/main.cpp:4855-4890 | An amount of m with e zeros has the code one plus ten times nine times the leading digits and the last digit less one, plus e; with nine zeros ten times m. |
| Formats.AmountExamples | primeserver/src/test/compress_tests.cpp:36-45 | The pairs of amounts and codes that the tests list. |
| Compress.CompressAmount | primeserver/src/main.cpp:4855-4872 | With 64-bit arithmetic the result is the code, wrapped only for amounts above MAX_MONEY. |
| Compress.DecompressAmount | primeserver/src/main.cpp:4874-4898 | With 64-bit arithmetic the result is the amount, wrapped if it does not fit. |
| Compress.LongAfterShort | primeserver/src/script.cpp:1783-1906 | Each special script is rebuilt from its short form. |
| Compress.ParseEncodedScript | primeserver/src/script.h:638-663 | Every script, special or not, is read back, and no byte more than was written is taken. |
| CoinsCodec.ParseEncodedOutput | primeserver/src/main.h:702-716 | An output is read back from its short form. |
| CoinsCodec.ParseEncodedMask | primeserver/src/main.h:1023-1034 | Reading mask bytes until as many as announced were not zero gives the availability of every output. |
| CoinsCodec.MaskCovers | primeserver/src/main.h:945-961 | Every available output beyond the first two has its bit within the bytes written. |
| CoinsCodec.HeaderCodeFacts | primeserver/src/main.h:996-997 | The header code fits 32 bits and gives back the flags and the number of mask bytes that are not zero. |
| CoinsCodec.ParseAfterEncode | primeserver/src/main.h:990-1050 | For every pattern of spent outputs, reading gives the coins with spent outputs blanked and dropped at the end and the version the disk keeps, and takes exactly the bytes written. |
| CoinsCodec.ParseAfterEncodeTidy | primeserver/src/main.h:990-1050 | The coins a cache holds are read back as written but for a negative version. |
| CoinsCodec.RecoveredExactlyWhen | primeserver/src/main.h:990-1050 | Coins are recovered exactly when spent outputs are blank, none is at the end, and the version is not negative. |
| CoinsCodec.CalcMaskSize | primeserver/src/main.h:945-961 | The loops find the number of mask bytes up to the last one in use, and how many are not zero. |
| CoinsCodec.Serialize | primeserver/src/main.h:990-1017 | Writes the encoding of coins. |
| CoinsCodec.Unserialize | primeserver/src/main.h:1019-1050 | Reads coins, or fails when the stream ends too early. |
| CoinsCodec.GetSerializeSize | primeserver/src/main.h:967-988 | The size computed is the number of bytes written, for every mask. |
| CoinsCodec.ParseAfterEncodeUndo | primeserver/src/main.h:738-758 | What is read back of any undo record; it is what was written exactly when the version is not negative, and zero where no height goes with it. |
| CoinsCodec.ParseEncodedRecords | primeserver/src/main.h:742-758 | The undo records of a transaction are read back one after the other, each as above. |
| CoinsCodec.VersionLost | primeserver/src/main.h:742-758 | Spending the last output of a transaction of version -1 and restoring it from undo data that was on disk gives version 127. |
| Formats.FirstCoinsExample | primeserver/src/main.h:860-873 | The first documented example, for every hash: one output of 600 coins at position 1. |
| Formats.SecondCoinsExample | primeserver/src/main.h:876-893 | The second documented example, for every pair of hashes: outputs 4 and 16 of a coinbase. |
| MemPool.NoDoubleSpend | primeserver/src/main.h:2118-2119 | While the index is exact no output is spent twice, by two pooled transactions or by one. |
| MemPool.TxMemPool.AddUnchecked | primeserver/src/main.cpp:836-847 | Adding keeps mapNextTx exactly the index of all inputs of pooled transactions. |
| MemPool.TxMemPool.Accept | primeserver/src/main.cpp:663-815 | Admits a transaction exactly when it passes the checks, is new and spends nothing a pooled one spends; otherwise nothing changes. |
| MemPool.TxMemPool.Remove | primeserver/src/main.cpp:850-872 | Terminates, and recursively removes precisely the transaction and its pooled descendants. |
| MemPool.TxMemPool.RemoveSpenders | primeserver/src/main.cpp:856-861 | Going through the outputs removes precisely the pooled descendants of a transaction, pooled itself or not. |
| MemPool.TxMemPool.RemoveConflicts | primeserver/src/main.cpp:874-887 | Removes precisely what spends an input of the transaction and what descends from that; afterwards no other pooled transaction shares an input with it. |
| MemPool.TxMemPool.BlockConnected | primeserver/src/main.cpp:1836-1840 | What stays pooled after a block is exactly what is left when for one transaction of the block after the other that transaction goes and then all that conflicts with it, each with descendants. |
| MemPool.AfterBlockStep | primeserver/src/main.cpp:1836-1840 | One more transaction of the block takes out itself and then what conflicts with it, and descendants. |
| Ledger.PoolBackend.HandleShare | primeserver/src/backend.cpp:544-588 | A share and, for a block, the fee of the pool are added unaccounted; the books stay sound. |
| Ledger.PoolBackend.AccountShare | primeserver/src/backend.cpp:256-306 | Credits one share and requests a payout exactly when more than the minimum has gathered and the user is not blocked; the first payout asks for one coin. |
| Ledger.RequestedAmount | primeserver/src/backend.cpp:283-303 | The first request of a user asks for one coin and each later one for the minimum set by the user or else by the pool; it is made exactly when more than that has gathered unrequested and the user is not blocked. |
| Ledger.PoolBackend.AccountShares | primeserver/src/backend.cpp:247-309 | Accounts every share once, in some order, each with the request that is due then: each balance grows by exactly what the new shares of the address are worth, and the books stay sound. |
| Ledger.PoolBackend.FinalPayout | primeserver/src/backend.cpp:311-339 | Requests all that is left of exactly the accounts with more than a tenth of a coin, each once, and changes nothing else. |
| Ledger.FinalPayoutIs | primeserver/src/backend.cpp:311-339 | The final payout requests for each address all that it has beyond its requests if that is more than a tenth of a coin, and otherwise nothing. |
| Ledger.PoolBackend.Execute | primeserver/src/backend.cpp:354-424 | Ends the payout, touching nothing, exactly when the wallet would be left with less than a coin; otherwise the request is dropped with the user blocked exactly if the address is invalid, paid if the wallet sends, and else kept. Accounts, requests, payments and what was asked of the wallet are given exactly. |
| Ledger.PoolBackend.ExecutePayouts | primeserver/src/backend.cpp:342-430 | Takes the requests in order until all are done or the wallet is too low. For some fates that fit the answers of the wallet, the accounts, the requests that stay, the payments and everything asked of the wallet are exactly what these fates give; for valid addresses paid plus pending is conserved. |
| Ledger.PoolBackend.Accounting | primeserver/src/backend.cpp:162-430 | The whole new state of a tick: all shares are credited once in some order with the requests due then; the final payout is made on tick 3 only; every request then due is dealt with on each payout tick, and none on another. The books stay sound, and balance plus paid of every address grows by exactly what its new shares are worth. |
| Ledger.UserBalance | primeserver/src/backend.cpp:434-440 | What the pool owes all users is what all accounted shares earned less all that was paid. |
| Ledger.RequestsAreCovered | primeserver/src/backend.cpp:342-430 | All pending requests of an address together never exceed its balance, nor, with what was paid, its earnings. |
| AddrTables.SizeBound | primeserver/src/addrman.h:107-120 | The tables hold at most 64 * 64 tried and 256 * 64 new entries, and the random order every entry. |
| AddrTables.SwapKeeps | primeserver/src/addrman.cpp:106-124 | Swapping two places of the random order keeps all that the consistency check tests. |
| AddrTables.TouchKeeps | primeserver/src/addrman.cpp:284-288 | Changing statistics keeps all that the consistency check tests. |
| AddrTables.DropKeeps | primeserver/src/addrman.cpp:163-172 | Taking an entry out of a new bucket, and deleting it when that was its only one, keeps everything in agreement. |
| AddrTables.CreateKeeps | primeserver/src/addrman.cpp:94-104 | Creating an entry keeps everything in agreement but for the bucket it counts and is still to join. |
| AddrTables.BumpKeeps | primeserver/src/addrman.cpp:362-364 | Counting one more reference keeps everything in agreement but for the bucket still to join. |
| AddrTables.JoinKeeps | primeserver/src/addrman.cpp:362-367 | Joining a bucket with room brings the tables into full agreement. |
| AddrTables.PromoteKeeps | primeserver/src/addrman.cpp:208-229 | Moving a new entry to a tried bucket with room keeps everything in agreement. |
| AddrTables.ReplaceKeeps | primeserver/src/addrman.cpp:235-259 | Evicting a tried entry to a new bucket in favour of another one keeps everything in agreement. |
| AddrMan.AddrManager.SwapRandom | primeserver/src/addrman.cpp:106-124 | Swaps two places and updates both entries; its assertions hold. |
| AddrMan.AddrManager.SelectTried | primeserver/src/addrman.cpp:126-148 | Draws up to four entries to the front of the bucket and returns where the oldest of them was drawn from; the entry found there is the oldest one exactly when it was drawn from the place it was swapped with. |
| Eviction.DrawnStep | primeserver/src/addrman.cpp:136-143 | One more round swaps one entry to the front, and those inspected before stay. |
| Eviction.OldestIsSelectedWhen | primeserver/src/addrman.cpp:130-147 | The exact condition under which the position kept is that of the oldest entry inspected. |
| Eviction.NewestIsSelected | primeserver/src/addrman.cpp:130-147 | A full bucket and draws for which the oldest entry is inspected, and the position returned holds the one that was connected to last. |
| AddrMan.AddrManager.ShrinkNew | primeserver/src/addrman.cpp:150-202 | Takes one entry out of a full bucket, a terrible one if there is any and else the oldest of four, and keeps everything in agreement. |
| AddrMan.TerribleWhen | primeserver/src/addrman.cpp:38-57 | Not tried in the last minute, and: of unknown time, ten minutes ahead or thirty days back, or three attempts without any success, or ten with the last success more than a week back. |
| AddrMan.AddrManager.MakeTried | primeserver/src/addrman.cpp:204-260 | The entry leaves every new bucket and is tried. If its tried bucket is full, exactly the entry found at the position selected is evicted, to its own new bucket or the one the entry came from; all assertions hold. |
| AddrMan.AddrManager.Evict | primeserver/src/addrman.cpp:235-259 | The entry at the position goes to its own bucket if that has room, and there certainly is room in the other one. |
| AddrMan.AddrManager.Good | primeserver/src/addrman.cpp:262-311 | A known service is tried from then on, with its statistics reset; the exit for an entry in no bucket is never needed; nothing is deleted. |
| AddrMan.AddrManager.Add | primeserver/src/addrman.cpp:313-369 | New exactly when routable and unknown; then an entry with the right time and source joins its bucket. News of a known entry bring it into one more bucket exactly with a lucky lot, and nothing else changes. Keeps everything in agreement, deletes at most one other address and never a tried one. |
| AddrMan.AddrManager.Join | primeserver/src/addrman.cpp:359-367 | The entry joins the bucket, after one other left it exactly if it was full, a terrible one if there was any. |
| AddrMan.AddrManager.Update | primeserver/src/addrman.cpp:324-351 | Brings time and services up to date, and goes on exactly with news for an entry that is not tried and in fewer than four buckets and with the one lucky lot in 2^n for an entry in n buckets. |
| AddrMan.RefreshedForward | primeserver/src/addrman.cpp:324-331 | The time of an entry moves on exactly when the announced time less the penalty is later by more than an hour, or than a day for what is older than a day; it never goes back, and services are only added. |
| AddrMan.ChancesHalve | primeserver/src/addrman.cpp:345-350 | Each bucket an entry is in already makes one more only half as likely. |
| AddrMan.NewInfoIs | primeserver/src/addrman.cpp:351-353 | A new entry shows the time announced less the penalty, but none before zero, and was never tried. |
| AddrMan.AddrManager.Attempt | primeserver/src/addrman.cpp:371-388 | Counts the attempt of exactly this service. |
| AddrMan.AddrManager.Connected | primeserver/src/addrman.cpp:510-528 | Refreshes the time of exactly this service, after twenty minutes. |
| AddrMan.AddrManager.GetAddr | primeserver/src/addrman.cpp:494-508 | Only reorders the random list, and returns the addresses in front of it: distinct known ones, 23 percent of all and at most 2500. |
| AddrMan.AddrManager.Save | primeserver/src/addrman.h:296-338 | Writes the entries in id order and every new bucket by the numbers of its entries. |
| AddrMan.AddrManager.Load | primeserver/src/addrman.h:339-396 | Rebuilds all tables from a file, good or not, as specified. |
| AddrDisk.LoadedIsGood | primeserver/src/addrman.h:339-396 | Every good file loads without loss into tables in full agreement. |
| AddrDisk.SavedIsGood | primeserver/src/addrman.h:296-338 | What is saved is a good file: addresses distinct, buckets within their limits, tried entries fitting. |
| AddrDisk.RoundTrip | primeserver/src/addrman.h:279-398 | Save and load restore every entry, tried flag, reference count and bucket up to renaming of ids, in full agreement and with no tried entry lost. |

## Left out

- Scripts, signatures, sigop limits, proof of work, timestamps of blocks and finality: one
  boolean per block or transaction stands for all of them.
- Transaction hashes are not computed: a transaction carries its hash, and in the memory pool one
  hash names one transaction and spending is without cycles.
- Injectivity of the hash, used by the uniqueness lemmas on Merkle trees, is an idealisation.
- Disk: reading, writing and running out of space, so neither the abort exits of `SetBestChain`
  nor undo file checksums. Undo data is a map from blocks to what is read back of it; the counts in
  front of its lists are not modelled.
- Chain.ChainState.ConnectBlock: a sigop limit or an inline script check that stops a block before its
  last transaction is part of `verified`, and does not keep the money supply from being recorded.
- The lock-count limit for blocks of a certain time, `fJustCheck`, the transaction index, and
  `DisconnectBlock` with a `pfClean` flag, which only the start-up check uses.
- Notices to wallets and the return of disconnected transactions to the memory pool after a switch
  of chains; what a connected block does to the pool is `MemPool.TxMemPool.BlockConnected`.
- Synchronised checkpoints, invalid-chain warnings and the order of equal work among candidates by
  time of arrival.
- 64-bit overflow of money sums and chain work, and the `-mintxfee` option: amounts are unbounded
  integers with the default fee.
- Chain.ChainState.InvalidBlockFound: the alert it may raise is not modelled, nor the reorganisation
  for a block of the active chain, which a switch is shown never to need.
- CoinsView.CoinsViewCache.GetCoins: entries are copied to a `CoinsEntry` and back where the code
  works on a reference into the cache.
- CheckQueueRuns.StepKeeps: a worker may be woken at any time, which covers every notification to
  workers; exactly the notification of the master is modelled, since that one could be missed.
- Target.GetNext: the division by zero that raises an exception in the code shows as `ok == false`.
- Sieve.SieveOfEratosthenes.Weave: the modular inverse of the big-number library is modelled by its
  mathematical contract, with a search that meets it.
- Primality tests, the miner, `EstimateWorkTransition` and the statistics of mining.
- Framing.Receiver.ReceiveMsgBytes: what the message handler takes from the front of the queue is
  not modelled, nor the checks of start bytes and checksum done when a message is processed.
- SendQueue.Sender.EndMessage: the lock is not modelled; without a message the code returns and
  keeps it.
- Compress.LongAfterShort: whether a full public key is valid is a partial function from x and
  parity to y, as the curve equation makes it.
- CoinsCodec.Unserialize: a height of more than 31 bits, which is never written, is read as an
  unsigned number.
- MemPool.TxMemPool.Accept: fees, rate limits, standardness and the availability of inputs are one
  boolean; replacing transactions is switched off in the code.
- MemPool.TxMemPool.BlockConnected: `clear`, `queryHashes` and `pruneSpent` are not modelled.
- Ledger.PoolBackend.Accounting: statistics, block confirmations and the floating-point values of
  shares are left out; shares carry a non-negative value.
- Ledger.PoolBackend.AccountShares: shares are taken in any order, of which the order by address is
  one.
- Ledger.PoolBackend.ExecutePayouts: requests are kept in the order they were made, which is the
  order by time while the clock does not run backwards; 64-bit overflow is left out.
- AddrMan.AddrManager.ShrinkNew: the first terrible entry in the order of ids is any terrible entry,
  and a tie for the oldest is decided either way.
- AddrMan.AddrManager.Update: times are unbounded integers where the code keeps 32 bits.
- AddrMan.AddrManager.Load: a file is a value, not bytes; one that announces more than 256 buckets
  is outside the model.
- `Select_` and `GetChance`, which use floating point, and adding a list of addresses at once.
- Network, RPC, wallet, user interface, logging and start-up.
