# Verified models of the Avian node

This project models the self-contained data structures, codecs and protocols of the Avian
node and proves what they are for. The code is C++; the models are Dafny classes and methods
where the code updates objects in place, and functions where it computes values. Every method
is proved against a specification that does not mention its loops, and the specifications are
then related to independent reference definitions: an address book, a stack of plain maps, a
Merkle tree by levels, a stream of numbers, a parse tree.

| file | models |
|---|---|
| `AddrTables.dfy`, `AddrMan.dfy`, `AddrManTheorems.dfy`, `AddrManFile.dfy` | the address manager and its file format |
| `CoinsLayer.dfy`, `Coins.dfy` | the stack of write-back caches of unspent coins |
| `MerkleLevels.dfy`, `MerkleRoot.dfy` | the Merkle root of a block and the guard against lists that share one |
| `Merkle.dfy`, `Bytes.dfy` | partial Merkle trees ("Partial Merkle branch format" of BIP 37) |
| `Cuckoo.dfy` | the cuckoo cache of validated signatures |
| `CheckQueue.dfy` | the queue that verifies scripts on several threads |
| `Miner.dfy`, `Evaluations.dfy`, `Assembler.dfy` | the selection of transactions for a new block by fee rate |
| `SkipHeights.dfy`, `Chain.dfy` | the block tree with its skip list, the active chain, locators |
| `Bloom.dfy` | the rolling Bloom filter |
| `Digits.dfy`, `Words.dfy`, `Shifts.dfy`, `Arith.dfy`, `Compact.dfy` | 256-bit arithmetic, compact targets, block work |
| `Base58.dfy` | Base58 |
| `BoolExpr.dfy`, `BoolGrammar.dfy`, `BoolFormulas.dfy` | the evaluator of Boolean verifier strings |
| `BlockEncodings.dfy` | compact blocks ("HeaderAndShortIDs" and "Short transaction IDs" of BIP 152) |
| `Amount.dfy` | compressed amounts |
| `Powers.dfy`, `BitOps.dfy`, `Counting.dfy`, `Wrappers.dfy` | shared arithmetic, cardinalities and types |

Hash functions are parameters: uninterpreted, range-bounded where the code reduces them, and
injective on pairs where a Merkle property needs it. The clock, random choices, secret keys,
transaction finality, the minimum fee, block validity and the crowding of hash buckets are
parameters too. Pointers to blocks, sets of iterators and vectors become objects, sets and
sequences.

Where the code and its documentation disagree, the model follows the code:

- The remark that a partial Merkle tree has at most 2N - 1 flag bits (src/merkleblock.h:48) is
  false, because a node can have a single child. `Merkle.FlagBits` gives the exact number.
- `*=` of a 256-bit number with itself as the factor gives zero, because the words are cleared
  before they are read as the other factor (src/arith_uint256.cpp:73-80). `Multiply` states
  both cases.
- A modified mempool entry that failed and is recorded again counts its included ancestors
  once more (src/miner.cpp:306-312). `ReinsertedIsTooLarge` is a run in which this happens;
  `ReinsertedExcess` gives the amount and says when it is zero.
- Compressed amounts do not survive 64-bit arithmetic on the whole money range
  (src/compressor.cpp:143-160, src/amount.h:27). `RoundTripExact` gives the exact condition.
- A request for block transactions that is accepted need not increase: at 65535 the 16-bit
  offset wraps (src/blockencodings.h:55-61). It increases exactly if the distances before the
  last, and one for each of them, add up to at most 65535. `ReadIncreases` states this,
  `OffsetWraps` shows the failure.
- A compact block may announce more positions than its 16-bit indexes tell apart
  (src/blockencodings.cpp:52, 84-87). Every short id is bound to its own position exactly if
  there are at most 65536 of them: `BoundExactly`, with `PositionWraps` as the failing input.
- The search for a free position counts in 16 bits (src/blockencodings.cpp:82-86). It ends
  exactly if not every one of the first 65536 positions is prefilled: `SearchEndsExactly`, with
  `SearchCanGoOn` as a well-formed message on which it does not.
- The evaluator of verifier strings accepts more than formulas, because it skips what stands
  before the first name, negation or parenthesis of a string it cuts (src/LibBoolEE.cpp:33-37).
  `AcceptsExactly` gives the language accepted, `FormulasExactly` tells which of its strings are
  formulas, `SkipsAnAt` shows one that is not.
- The size of a cuckoo cache epoch wraps above 95443717 slots (src/cuckoocache.h:349), and the
  bytes for its flags above 2^32 - 8 slots (src/cuckoocache.h:64). `EpochSizeExact` and
  `FlagBytesExact` give the exact bounds.
- The totals of a modified mempool entry lose the modified fee of the first included ancestor
  and the unmodified fees of the others (src/miner.cpp:306-312, src/miner.h:125).
  `FeeRecordMeans` gives the difference, `PlainFeeRecord` says that there is none where no fee
  is modified.
- The selection stops at the first package below the minimum fee, because all others have a
  lower fee rate (src/miner.cpp:423-426). They have, but the minimum is rounded, so that one of
  them can still reach it: `NothingBetterLeft` and `RoundedMinimumReached`.
- The computation of a Merkle root is said to be limited to 2^32 leaves
  (src/consensus/merkle.cpp:48). Its last part rounds their number up to a power of two, which
  fits 32 bits exactly up to 2^31 leaves: `CountFits`.
- A transaction that failed once can fit the block that is there in the end, when an ancestor
  included later counts for more than its weight (src/miner.cpp:426-444). `RejectedForGood`
  says by how much, `RejectedButFits` shows it.
- The first displacement of the cuckoo cache goes to the second location, not the first as the
  comment says (src/cuckoocache.h:419-421).
- AddCoin subtracts the memory of the old entry before it throws (src/coins.cpp:76-95), and
  SpendCoin answers true on a cached entry that is already spent (src/coins.cpp:363-382).
  The contract of `SpendCoin` says when its answer is right, `SpendTwice` shows when not.
- Division by zero clears the dividend before it throws (src/arith_uint256.cpp:89-94).

## Model

| member | source | states |
|---|---|---|
| `AddrTables.SwapKeeps` | src/addrman.cpp:101-119 | exchanging two entries of vRandom with their back pointers keeps every condition of Check_ and the address book shown |
| `AddrTables.SwapTwice` | src/addrman.cpp:101-119 | exchanging the same two positions again restores the tables |
| `AddrTables.CreateKeeps` | src/addrman.cpp:89-99 | a new entry keeps the invariant, filed nowhere and not yet counted in nNew, and appears in the book |
| `AddrTables.DropLastKeeps` | src/addrman.cpp:121-133 | deleting an entry that is filed nowhere keeps the invariant and removes exactly its address |
| `AddrTables.DropRefKeeps` | src/addrman.cpp:135-148 | emptying a "new" slot keeps reference counts equal to the number of slots held |
| `AddrTables.TakeRefKeeps` | src/addrman.cpp:310-313 | filing an entry in a free slot keeps them too, up to eight |
| `AddrTables.EvictKeeps` | src/addrman.cpp:170-178 | taking an entry out of its "tried" slot keeps the invariant with the entry floating |
| `AddrTables.EnterTriedKeeps` | src/addrman.cpp:191-195 | putting an entry in its hash-determined "tried" slot keeps it |
| `AddrTables.NoHolderIffNotFiled` | src/addrman.cpp:393-467 | an entry's reference count is zero exactly if its address is in no "new" slot |
| `AddrMan.AddrMan.constructor` | src/addrman.h:457-478 | an empty manager satisfies the invariant and shows the empty book |
| `AddrMan.AddrMan.Clear` | src/addrman.h:457-478 | clearing gives the empty book whatever was there |
| `AddrMan.AddrMan.Find` | src/addrman.cpp:69-80 | found exactly if the address is mapped, and then its entry has that address |
| `AddrMan.AddrMan.Delete` | src/addrman.cpp:121-133 | its assertions hold; the invariant stays and only that entry goes |
| `AddrMan.AddrMan.ClearNew` | src/addrman.cpp:135-148 | the slot is empty, and its address is forgotten exactly if it has no other slot |
| `AddrMan.AddrMan.MakeTried` | src/addrman.cpp:150-196 | the address moves from all its "new" slots to its "tried" slot; an occupant goes back to the slot its own source selects, whose occupant is unfiled |
| `AddrMan.AddrMan.FindBucket` | src/addrman.cpp:227-242 | the rotated search always finds a bucket holding the entry, so the exit "no bucket found" is unreachable |
| `AddrMan.AddrMan.Good` | src/addrman.cpp:198-248 | keeps the invariant; the book changes as GoodInBook says |
| `AddrMan.AddrMan.FileEntry` | src/addrman.cpp:299-319 | the slot goes to the new address only if free, terrible, or its occupant has other slots and the new one none |
| `AddrMan.FileChoice` | src/addrman.cpp:299-318 | the choice made on ids and reference counts is the one the address book makes on addresses and slots |
| `AddrMan.AddrMan.Add` | src/addrman.cpp:250-321 | keeps the invariant; the answer is true exactly for a routable unknown address; the book changes as AddToBook says |
| `AddrMan.AddrMan.Attempt` | src/addrman.cpp:323-343 | keeps the invariant and updates only the last try and the attempts |
| `AddrMan.AddrMan.Connected` | src/addrman.cpp:491-509 | keeps the invariant and updates only the time, at most every 20 minutes |
| `AddrMan.AddrMan.SetServices` | src/addrman.cpp:511-527 | keeps the invariant and updates only the services |
| `AddrMan.AddrMan.GetAddr` | src/addrman.cpp:470-489 | a sample of at most 23% and 2500 distinct known addresses, none terrible; if it stays below the limit it has them all; the book is unchanged |
| `AddrMan.RefreshedTime` | src/addrman.cpp:264-269 | the time of a known address changes only if it was unset or older than the announced one by more than the interval, an hour or a day, and the penalty; then it moves forward by more than the interval, never past what was announced |
| `AddrManTheorems.ConsistentIsWellFiled` | src/addrman.cpp:393-467 | the tables' invariant in terms of the book: every address is in exactly one "tried" slot or in one to eight "new" slots, at hash-determined positions |
| `AddrManTheorems.GroupStaysInFewBuckets` | src/addrman.cpp:13-18 | a network group occupies at most eight "tried" buckets |
| `AddrManTheorems.NewSlotExactly` | src/addrman.cpp:20-32 | which "new" slot an announcement selects, without division: the groups of address and source choose one of 64 numbers, that number and the group of the source one of 1024 buckets, the whole address one of 64 positions |
| `AddrManTheorems.TriedSlotExactly` | src/addrman.cpp:13-18 | which "tried" slot an address has: the whole address chooses one of eight numbers, that number and its group one of 256 buckets |
| `AddrManTheorems.SourceReachesFewBuckets` | src/addrman.h:120-122 | however many addresses a source announces, the slots they select lie in at most 64 of the 1024 "new" buckets |
| `AddrManTheorems.AddSets` | src/addrman.cpp:297-318 | an announcement writes no other address, and only into a bucket within reach of its source |
| `AddrManTheorems.GoodSets` | src/addrman.cpp:150-248 | a success writes only the address that loses its "tried" slot, and only within reach of the source recorded for it |
| `AddrManTheorems.ReachKept` | src/addrman.h:117-122 | every operation keeps that each "new" slot is within reach of a source that announced the address in it |
| `AddrManTheorems.SourceGroupStaysInFewBuckets` | src/addrman.h:117-122 | after any operations, the addresses that only one group of sources announced lie in at most 64 of the 1024 buckets |
| `AddrManTheorems.TerribleExactly` | src/addrman.cpp:34-52 | the five ways to be terrible and the minute of grace after an attempt, with their numbers |
| `AddrManTheorems.AttemptProtects` | src/addrman.cpp:36-37 | an attempt protects an entry from being terrible for a minute |
| `AddrManTheorems.GoodClears` | src/addrman.cpp:150-248 | a success brings the address into its "tried" slot, out of all "new" ones, and from then on only the time it was last seen can make it terrible |
| `AddrManTheorems.OccupantStays` | src/addrman.cpp:300-311 | an unknown address takes an occupied slot exactly if it selects it and the occupant is terrible or has another slot; a known one only from a terrible occupant |
| `AddrManTheorems.NewcomerRecorded` | src/addrman.cpp:291-313 | an unknown address with a free slot is recorded with its source, at the announced time less the penalty, never tried, without touching anything else; no penalty for a self-announcement |
| `AddrManTheorems.KnownRefiled` | src/addrman.cpp:273-290 | a known address gets a further free slot exactly if the announcement is still news, it is untried, has fewer than eight slots, and the random number is a multiple of two to their number |
| `AddrManTheorems.CountedOnce` | src/addrman.cpp:337-342 | between two successes anywhere an entry counts at most one failure |
| `AddrManTheorems.ConnectedRefreshes` | src/addrman.cpp:491-512 | a connection leaves the time at most twenty minutes behind, never moves it back, and touches nothing else |
| `AddrManTheorems.ServicesGrow` | src/addrman.cpp:270-271 | a service bit is set afterwards exactly if it was set or is announced |
| `AddrManTheorems.GoodTimes` | src/addrman.cpp:198-248 | no entry ever has a negative time, and tried entries have succeeded |
| `AddrManTheorems.AddTimes` | src/addrman.cpp:250-321 | the same for Add_ |
| `AddrManTheorems.AttemptTimes` | src/addrman.cpp:323-343 | the same for Attempt_ |
| `AddrManTheorems.ConnectedTimes` | src/addrman.cpp:491-509 | the same for Connected_ |
| `AddrManTheorems.CountersExact` | src/addrman.cpp:393-467 | nNew + nTried, vRandom and the address map all count the addresses |
| `AddrManTheorems.Step` | src/addrman.cpp:198-343 | any single operation keeps all conditions of Check_ and does to the book what its specification says |
| `AddrManTheorems.Run` | src/addrman.cpp:393-467 | every run from an empty manager ends with all conditions of Check_, the key as drawn, exact counters, groups of addresses and groups of sources bounded in the buckets they reach, and the book on which the same operations were done one after the other |
| `AddrManFile.OrderNumbers` | src/addrman.h:301-349 | the order of writing lists every entry once, the "new" ones first, and both counters match it |
| `AddrManFile.RanksAreNumbers` | src/addrman.h:301-349 | the index a bucket refers to is the entry's place in that order |
| `AddrManFile.Serialize` | src/addrman.h:301-349 | the stream is the encoding of the tables |
| `AddrManFile.WithinCapacity` | src/addrman.h:372-378 | the counters pass the size checks of reading |
| `AddrManFile.Prune` | src/addrman.h:440-449 | the loop that removes lost entries finds none |
| `AddrManFile.ReloadedConsistent` | src/addrman.h:351-455 | tables equal up to an order-preserving renaming of ids satisfy the invariant again |
| `AddrManFile.ReloadedShows` | src/addrman.h:351-455 | and show the same book but for memory-only fields |
| `AddrManFile.Unserialize` | src/addrman.h:351-455 | reading what was written rebuilds the tables up to renaming; no entry collides and none is lost |
| `AddrManFile.SaveAndLoad` | src/addrman.h:301-455 | saving and loading keeps the book, both counters and the key |
| `CoinsLayer.AddCoinExact` | src/coins.cpp:76-95 | adding keeps the flags right exactly if overwriting was announced or there is no unspent coin in the view |
| `CoinsLayer.MergeKeeps` | src/coins.cpp:428-482 | merging a child entry never throws, keeps the flags right and shows the child's coin |
| `CoinsLayer.AddLayer` | src/coins.cpp:76-95 | the layer invariant, with exact memory use, survives AddCoin exactly under that condition |
| `CoinsLayer.SpendLayer` | src/coins.cpp:363-382 | spending keeps the layer invariant over the view without the coin |
| `CoinsLayer.MergeLayer` | src/coins.cpp:428-482 | a merged entry keeps it over the view with the child's coin |
| `CoinsLayer.WriteStep` | src/txdb.cpp:124-135 | writing one dirty entry brings the database one step closer to the cache's view |
| `CoinsLayer.MisappliedFreshRevives` | src/coins.cpp:76-95 | a wrong promise makes a spent coin reappear: the entry counts as fresh and vanishes when spent |
| `Coins.CoinsDB.BatchWrite` | src/txdb.cpp:124-135 | the database becomes the view of the cache written to it |
| `Coins.CoinsViewCache.FetchCoin` | src/coins.cpp:50-65 | loads an entry without changing any view |
| `Coins.CoinsViewCache.GetCoin` | src/coins.cpp:67-74 | answers as the plain map does, at any depth |
| `Coins.CoinsViewCache.AddCoin` | src/coins.cpp:76-95 | throws exactly if an unspent cached coin would be replaced; else the view gains the coin, and the invariant holds exactly if the caller was right |
| `Coins.CoinsViewCache.SpendCoin` | src/coins.cpp:363-395 | removes the coin from the view and returns it; the answer tells whether there was one exactly if no spent entry is cached |
| `Coins.SpendTwice` | src/coins.cpp:363-382 | spending a coin that is not fresh twice in a row is answered with true both times |
| `Coins.CoinsViewCache.Uncache` | src/coins.cpp:491-498 | forgets exactly an entry that is neither dirty nor fresh, and changes no view |
| `Coins.CoinsViewCache.MergeEntry` | src/coins.cpp:430-476 | one child entry is taken over and the exception is unreachable |
| `Coins.CoinsViewCache.BatchWrite` | src/coins.cpp:428-482 | the view becomes the child's view |
| `Coins.CoinsViewCache.Flush` | src/coins.cpp:484-489 | the base view becomes this view, which stays the same, and the cache is empty with no memory counted |
| `Coins.Step` | src/coins.cpp:50-498 | one operation on a stack of caches is the same operation on a stack of plain maps |
| `Coins.Run` | src/coins.cpp:50-498 | so is every run, for the answers given and the views of all levels |
| `Merkle.Children` | src/merkleblock.h:67-69 | a node exists exactly if its left child does |
| `Merkle.RootWidth` | src/merkleblock.cpp:118-130 | the loop that finds the height stops at a single root |
| `Merkle.LevelUp` | src/merkleblock.cpp:47-60 | a node of the tree over a list is the node one lower in the tree over its digests hashed in pairs |
| `Merkle.CalcHashIsRoot` | src/merkleblock.cpp:47-60 | the top node is the root that hashing level by level gives |
| `Merkle.TreeHeight` | src/merkleblock.cpp:118-130 | the height loop computes the height of the tree |
| `Merkle.ExtractSound` | src/merkleblock.cpp:80-116 | for arbitrary bits and hashes: a subtree hashing to the true subtree's hash reports only true leaves |
| `Merkle.ExtractBuilt` | src/merkleblock.cpp:62-116 | extracting a built subtree reports exactly its matched leaves, in order, and is bad exactly if a visited inner node has two equal children |
| `Merkle.BuildSize` | src/merkleblock.h:40-41 | a built subtree has at most as many hashes as leaves, and at most one plus matches times height |
| `Merkle.EncodingSize` | src/merkleblock.h:40-41 | the whole encoding stores at most min(n, 1 + matched * height) hashes |
| `Merkle.FlagBits` | src/merkleblock.h:48 | the exact number of flag bits, counting single-child nodes |
| `Merkle.FlagBitsExceed` | src/merkleblock.h:48 | a tree of three leaves that needs more than 2N - 1 bits |
| `Merkle.PackBits` | src/merkleblock.h:89-106 | bit p of the flags is bit p % 8 of byte p / 8, the rest is zero |
| `Merkle.UnpackBits` | src/merkleblock.h:89-106 | every bit of every byte is read back |
| `Merkle.PackedBits` | src/merkleblock.h:89-106 | unpacking packed flags gives them followed by zeros |
| `Merkle.PartialMerkleTree.constructor` | src/merkleblock.cpp:118-130 | bits and hashes are those of the recursive encoding |
| `Merkle.PartialMerkleTree.TraverseAndBuild` | src/merkleblock.cpp:62-78 | appends the encoding of a subtree |
| `Merkle.PartialMerkleTree.TraverseAndExtract` | src/merkleblock.cpp:80-116 | computes the recursive extraction and marks bad input |
| `Merkle.PartialMerkleTree.ExtractMatches` | src/merkleblock.cpp:134-165 | a nonzero root means that all checks passed, and then the matches are those of the extraction |
| `Merkle.AcceptedIsSound` | src/merkleblock.cpp:134-165 | if the root is that of a list of as many ids, every reported pair is that list's id at that index |
| `Merkle.BuiltIsAccepted` | src/merkleblock.cpp:134-165 | what was built, with the padding bits, passes all checks exactly if no visited inner node has two equal children |
| `Merkle.DistinctNoClash` | src/merkleblock.cpp:102-109 | distinct ids have no such node |
| `Merkle.TwinsClash` | src/merkleblock.cpp:102-109 | the same id twice has one |
| `Merkle.ClashIsMutation` | src/merkleblock.cpp:102-109 | such a node is a pair of twins on some level of the tree |
| `Merkle.SendAndExtract` | src/merkleblock.cpp:42-165 | build, pack, unpack, extract, for all ids and masks: the root by levels and exactly the matched ids and indexes in order, or failure exactly if a visited inner node has two equal children; never for a block without twins in its tree |
| `MerkleLevels.RootDeterminesList` | src/consensus/merkle.cpp:9-46 | without a collision, two lists of leaves with the same root and no twins on any level are the same |
| `MerkleLevels.RepeatedLast` | src/consensus/merkle.cpp:14-30 | repeating the last digest of any odd list keeps the root, and makes twins |
| `MerkleRoot.AddLeaf` | src/consensus/merkle.cpp:70-96 | after each leaf, the array holds the last complete node for every one in the binary form of their number, and the flag tells of the pairs completed |
| `MerkleRoot.Sweep` | src/consensus/merkle.cpp:97-129 | the last part of the one-pass computation gives the root |
| `MerkleRoot.ComputeMerkleRoot` | src/consensus/merkle.cpp:48-139 | one pass in constant space gives the root by levels, and the flag is set exactly if two complete nodes that form a pair are the same |
| `MerkleRoot.FlagExactly` | src/consensus/merkle.cpp:40-45 | without a collision, the flag is set exactly if there are twins on any level, complete or not |
| `MerkleRoot.UnflaggedRootsDiffer` | src/consensus/merkle.cpp:32-45 | without a collision, two different lists of leaves that both pass the flag have different roots |
| `MerkleRoot.CountFits` | src/consensus/merkle.cpp:48 | the number of leaves that the sweep rounds up to fits 32 bits exactly up to 2^31 leaves |
| `Bytes.BitMeans` | src/merkleblock.h:89-106 | bit k of a byte is the lowest one after k shifts to the right |
| `Cuckoo.BitPackedFlags.BitSet` | src/cuckoocache.h:42-117 | sets one flag and no other |
| `Cuckoo.BitPackedFlags.BitUnset` | src/cuckoocache.h:42-117 | clears one flag and no other |
| `Cuckoo.FlagBytesExact` | src/cuckoocache.h:61-68 | the bytes allocated hold all flags exactly up to 2^32 - 8 slots |
| `Cuckoo.EpochSizeExact` | src/cuckoocache.h:340-353 | the epoch size is 45 percent of the slots exactly up to a bound beyond which 32 bits wrap |
| `Cuckoo.ComputeHashes` | src/cuckoocache.h:243-253 | the k-th place is the share of the k-th 32-bit hash in the size: place / size is at most hash / 2^32, and (place + 1) / size is above it; a slot is a home exactly if it is one of the eight |
| `Cuckoo.Cache.constructor` | src/cuckoocache.h:340-353 | an empty cache of at least two slots, all garbage and of no epoch |
| `Cuckoo.Cache.EpochCheck` | src/cuckoocache.h:289-321 | old entries become garbage exactly when the count is due and finds the epoch full; the next scan is due when the epoch has room left for no more inserts, and not before a sixteenth of it |
| `Cuckoo.Cache.ContainsElement` | src/cuckoocache.h:467-477 | true exactly if one of the eight locations holds the element; erasing marks one slot |
| `Cuckoo.LostByOverwriting` | src/cuckoocache.h:392-440 | writing over a garbage slot loses exactly its content |
| `Cuckoo.LostByDisplacement` | src/cuckoocache.h:392-440 | at the depth limit exactly the last displaced element is lost |
| `Cuckoo.Cache.Insert` | src/cuckoocache.h:392-440 | a present element is only kept and moved to the current epoch; an absent one costs exactly one slot's content, which unless the depth is exhausted was garbage after the epoch check; everything else is still found, even when locations repeat; table, epoch flags and garbage flags are exactly what displacing along the code's path leaves |
| `Cuckoo.Run` | src/cuckoocache.h:289-440 | over every run the live elements of the epoch stay within the epoch size and its slack |
| `Cuckoo.ErasedIsStillFound` | src/cuckoocache.h:442-456 | a present element is still found after it was erased |
| `CheckQueue.RunChecks` | src/checkqueue.h:122-126 | a batch reports true exactly if it began true and every check of it is true |
| `CheckQueue.TakeBatch` | src/checkqueue.h:112-118 | the batch is the end of the queue, reversed, and the rest stays |
| `CheckQueue.BatchSize` | src/checkqueue.h:107-114 | the batch is as large as the limit and an even share of the queue among all workers allow, and at least one |
| `CheckQueue.FailureRunsNothing` | src/checkqueue.h:115-121 | a batch comes off the end of the queue, and once a check has failed none of its checks is run |
| `CheckQueue.CleanUpKeeps` | src/checkqueue.h:70-128 | the bookkeeping after a batch keeps the counts, the verdict and the wakeup of the master |
| `CheckQueue.StepKeeps` | src/checkqueue.h:70-128 | every step of every thread keeps the invariant; a step that ends Wait returns the truth about all checks |
| `CheckQueue.AllDone` | src/checkqueue.h:92-101 | nothing to do means nothing queued, nothing in flight, and a verdict for all checks of the round |
| `CheckQueue.RunKeeps` | src/checkqueue.h:70-162 | the invariant holds after every interleaving, with spurious wakeups |
| `CheckQueue.WaitTellsTheTruth` | src/checkqueue.h:150-162 | whatever the interleaving, Wait returns only when every check is finished, and returns true exactly if all are true |
| `CheckQueue.MasterWaitsForAWorker` | src/checkqueue.h:70-128 | nTodo counts queued and running checks; a master that sleeps waits with an empty queue for a worker, and a worker's clean-up wakes it exactly if its batch is all that is left |
| `CheckQueue.WaitCanReturn` | src/checkqueue.h:70-162 | no deadlock: wherever the master waits, the workers can finish what they hold; then nothing is left to do, the master has been notified, and Wait returns the truth about the round |
| `Miner.AncestorCountsGrow` | src/miner.h:87-97 | an ancestor has fewer ancestors, so that the order by count is valid |
| `Miner.SortForBlock` | src/miner.cpp:334-343 | the package as a list without repetition, ordered by ancestor count and then by hash |
| `Miner.SortedUnique` | src/miner.h:87-97 | a package has only one such list |
| `Miner.SortedParentsFirst` | src/miner.cpp:336-339 | in that order every transaction follows its ancestors |
| `Miner.UpdateDescendants` | src/miner.cpp:296-315 | each descendant of an added transaction has it subtracted once, and no other record changes |
| `Miner.UpdatePackagesForAdded` | src/miner.cpp:292-318 | every record loses exactly the sizes and signature operations of its ancestors among the added; afterwards no member of the block is recorded, no recorded total is too small, and totals of entries that never failed are exact |
| `Miner.FeeRecordMeans` | src/miner.h:119-128 | the recorded fees differ from the modified fees of what is missing by the modifications of all included ancestors but the first |
| `Miner.PlainFeeRecord` | src/miner.h:119-128 | without modified fees the recorded fees are those of what is missing |
| `Miner.ReinsertedExcess` | src/miner.cpp:302-312 | a record made anew after a failure is too large by exactly the ancestors included before, so exact exactly if those add up to nothing |
| `Miner.ReinsertedIsTooLarge` | src/miner.cpp:292-444 | two parents and their child: the child fails after the first parent, its second record counts that parent again, and so it fails although it would fit |
| `Miner.EntryTotals` | src/miner.cpp:402-424 | the entry considered is not in the block, and its totals bound, or equal if it never failed, those of its package |
| `Miner.PackageFits` | src/miner.cpp:248-256 | passing the test by size keeps the weight below the limit |
| `Miner.RejectedStays` | src/miner.cpp:426-444 | that a transaction was rejected stays a fact about the growing block |
| `Miner.RejectedForGood` | src/miner.cpp:426-470 | a transaction rejected once is inadmissible, has too many signature operations, or is too large for the final block, up to what its included ancestors count for beyond their weight |
| `Miner.RejectedButFits` | src/miner.cpp:248-256 | with such an ancestor a transaction rejected once fits the final block |
| `Assembler.BlockAssembler.constructor` | src/miner.cpp:87-92 | the limit is the option, but at least 4000 and at most the consensus limit minus 4000 |
| `Assembler.BlockAssembler.AddToBlock` | src/miner.cpp:273-290 | appends a transaction whose ancestors are in the block and keeps all totals exact |
| `Assembler.BlockAssembler.AddPackage` | src/miner.cpp:464-474 | exactly the package joins, in sorted order, and leaves the modified set |
| `Assembler.BlockAssembler.TestPackageTransactions` | src/miner.cpp:262-271 | true exactly if every transaction is admissible |
| `Assembler.BlockAssembler.OnlyUnconfirmed` | src/miner.cpp:236-246 | exactly the transactions not yet in the block remain |
| `Evaluations.HigherIsRate` | src/miner.h:75-85 | the comparison by products is the one by fee rate, ties going to the smaller hash |
| `Evaluations.BestModified` | src/miner.cpp:388-403 | the best entry of the modified set |
| `Assembler.BlockAssembler.ChooseEntry` | src/miner.cpp:386-409 | the better one of the next transaction of the walk and the best modified one |
| `Assembler.BlockAssembler.Evaluate` | src/miner.cpp:416-481 | the verdict on the totals of the entry: below the minimum fee, too large for the block as it is, not admissible, or included, where exactly what is missing joins in sorted order; a failed modified entry loses its record |
| `Assembler.BlockAssembler.AddPackageTxs` | src/miner.cpp:355-482 | terminates and leaves a log of evaluations that leads from the first block to the last: each looks at a transaction not in the block, with the totals of what is missing, the best of those not looked at yet, and its verdict; exactly a verdict below the minimum fee, or more than 1000 too large since the last inclusion in a nearly full block, ends it; if nothing does, every transaction left out was looked at and by its exact totals did not fit or was not admissible |
| `Evaluations.GreedyByFeeRate` | src/miner.cpp:345-354 | where no fee is modified, a package looked at for the first time has the highest fee rate, over what is missing from the block, of all not looked at yet |
| `Evaluations.NothingPays` | src/miner.cpp:423-426 | from an empty block, if no transaction reaches the minimum fee with its ancestors, the block stays empty |
| `Evaluations.FirstPackageTaken` | src/miner.cpp:376-481 | from an empty block, the package at the head of the walk is included if it reaches the minimum, fits and is admissible |
| `Evaluations.NothingBetterLeft` | src/miner.cpp:423-426 | after a stop for a low fee, whatever was not looked at is below the minimum rate too, and pays at most the rounded minimum |
| `Evaluations.RoundedMinimumReached` | src/policy/feerate.cpp:24-39 | a package with the lower rate that still reaches the rounded minimum |
| `Assembler.BlockAssembler.SelectTransactions` | src/miner.cpp:114-186 | from a reset block: no transaction twice, ancestor-closed, parents first, all admissible, weight and signature operations within the limits and equal to the sums; when the pool is exhausted, whatever is left out was rejected and, but for ancestors that count for more than their weight, does not fit the final block; nothing is selected where nothing pays, and the first package of the walk is where it pays and fits; giving up takes more than 1000 packages too large in a row |
| `SkipHeights.LowestOne` | src/chain.cpp:79-80 | exactly the lowest one bit is cleared |
| `SkipHeights.GetSkipHeight` | src/chain.cpp:82-92 | the skip height is below the height |
| `SkipHeights.SkipOfEven` | src/chain.cpp:83-92 | the skip height of an even number is the number without its lowest one |
| `SkipHeights.SkipOfOdd` | src/chain.cpp:83-92 | of an odd number the next two ones above the lowest bit are removed |
| `SkipHeights.StepsBound` | src/chain.cpp:86-118 | below height 2^b the walk to any ancestor takes at most (b^2 + 17b + 8) / 4 steps |
| `SkipHeights.DeepWalk` | src/chain.cpp:86-118 | from height 2^k to height 2 it takes at least (k^2 - 1) / 4, so that bound has the right order |
| `Chain.BlockIndex.GetAncestor` | src/chain.cpp:94-118 | terminates, its assertion holds, and it gives the block that repeated pprev steps reach, or null outside the range; with all skip pointers built it takes exactly the steps counted on heights |
| `Chain.BlockIndex.BuildSkip` | src/chain.cpp:125-129 | the skip pointer leads to the ancestor at the skip height |
| `Chain.AddBlock` | src/validation.cpp:3824-3837 | a block added below any block of the tree keeps the tree's invariant and all skip pointers built |
| `Chain.ActiveChain.SetTip` | src/chain.cpp:18-29 | despite the early exit entry i is the tip's ancestor at height i, for all i |
| `Chain.ActiveChain.ContainsExactly` | src/chain.h:489-492 | looking at one entry tells whether a block is anywhere on the chain |
| `Chain.ActiveChain.FindFork` | src/chain.cpp:60-70 | the highest ancestor of the block that is on the chain, or null if there is none |
| `Chain.ActiveChain.GetLocator` | src/chain.cpp:31-58 | ancestors from the start down to the root, eleven steps of one and then doubling, by the chain's index or the skip list |
| `Chain.LocatorIsShort` | src/chain.cpp:31-58 | a locator of n entries needs a height of at least 2^(n - 12) |
| `Chain.LastCommonAncestor` | src/chain.cpp:190-206 | the highest common ancestor of two blocks of one tree; the final assertion holds |
| `Bloom.PutTag` | src/bloom.cpp:266-275 | writing a position sets its two-bit tag and no other |
| `Bloom.WipeTag` | src/bloom.cpp:256-264 | the mask clears exactly the tags of one generation |
| `Bloom.PlaceExactly` | src/bloom.cpp:269-275 | the position of the n-th hash: its last six bits choose the bit, the others the word, round the table, up to the lowest bit of the word number |
| `Bloom.RollingBloomFilter.constructor` | src/bloom.cpp:217-242 | an empty filter of generations of half the capacity, rounded up |
| `Bloom.RollingBloomFilter.NextGeneration` | src/bloom.cpp:251-264 | wipes exactly what was written three generations ago |
| `Bloom.RollingBloomFilter.Insert` | src/bloom.cpp:249-277 | every position holds the generation of its last writer if that is one of the last three, else nothing |
| `Bloom.RecentKeysFound` | src/bloom.h:114-115 | each key inserted in the current generation or the two before it is found |
| `Bloom.HorizonWindow` | src/bloom.h:114-115 | those are at least the last nElements keys, or all, and at most one and a half times as many, rounded up |
| `Bloom.SetExactly` | src/bloom.cpp:249-277 | a position counts as set exactly if one of those keys wrote it |
| `Bloom.SetIsRecent` | src/bloom.cpp:249-277 | and then the last of them to write it hashes there |
| `Bloom.RollingBloomFilter.Contains` | src/bloom.cpp:285-297 | true exactly if every position of the key was last written by one of those keys |
| `Bloom.RollingBloomFilter.Reset` | src/bloom.cpp:305-313 | forgets all keys |
| `Arith.BaseUint.Add` | src/arith_uint256.h:142-152 | the sum modulo the width, also of a number with itself |
| `Arith.BaseUint.Not` | src/arith_uint256.h:76-82 | the greatest number minus this |
| `Arith.BaseUint.Increment` | src/arith_uint256.h:180-187 | one more, modulo the width |
| `Arith.BaseUint.Negate` | src/arith_uint256.h:84-91 | the negation modulo the width |
| `Arith.BaseUint.Subtract` | src/arith_uint256.h:154-158 | the difference modulo the width |
| `Arith.BaseUint.Assign` | src/arith_uint256.h:95-102 | the 64-bit number |
| `Arith.BaseUint.GetLow64` | src/arith_uint256.h:252-256 | the number modulo 2^64 |
| `Arith.BaseUint.EqualTo` | src/arith_uint256.cpp:125-136 | true exactly if the numbers are equal |
| `Arith.BaseUint.MultiplyWord` | src/arith_uint256.cpp:59-68 | the product modulo the width, without overflow of the accumulator |
| `Arith.BaseUint.MultiplyRow` | src/arith_uint256.cpp:75-82 | one row of the schoolbook product, dropping what overflows |
| `Arith.BaseUint.Multiply` | src/arith_uint256.cpp:71-84 | the product modulo the width, except that a number multiplied by itself in place becomes zero |
| `Arith.BaseUint.ShiftLeft` | src/arith_uint256.cpp:25-39 | the number times a power of two, modulo the width, for every shift |
| `Arith.BaseUint.ShiftRight` | src/arith_uint256.cpp:42-56 | the number divided by a power of two, rounded down, for every shift |
| `Arith.BaseUint.Bits` | src/arith_uint256.cpp:175-187 | the length in bits |
| `Arith.BaseUint.DivideBit` | src/arith_uint256.cpp:99-106 | one bit of the quotient, with the remainder below the next multiple |
| `Arith.BaseUint.Divide` | src/arith_uint256.cpp:87-110 | the quotient rounded down; fails exactly for a zero divisor |
| `Arith.BaseUint.CompareTo` | src/arith_uint256.cpp:113-122 | the order of the numbers |
| `Compact.OverflowExact` | src/arith_uint256.cpp:220-223 | the overflow test holds exactly if mantissa * 256^(size - 3) reaches 2^256 |
| `Compact.CompactFields` | src/arith_uint256.cpp:207-225 | a byte for the size, a sign bit and a mantissa of 23 bits |
| `Compact.SetCompact` | src/arith_uint256.cpp:207-225 | the number meant, modulo 2^256; the flags tell a negative and an overflowing one exactly |
| `Compact.GetCompact` | src/arith_uint256.cpp:227-249 | the canonical compact form; both assertions hold |
| `Compact.EncodingRounds` | src/arith_uint256.cpp:207-249 | decoding the encoding keeps the leading bytes and clears the rest |
| `Compact.RoundsDown` | src/arith_uint256.cpp:207-249 | it rounds down by less than 256^max(size - 3, 0) |
| `Compact.EncodingIsIdempotent` | src/arith_uint256.cpp:207-249 | encoding the rounded number gives the same compact form |
| `Compact.SignedRoundTrip` | src/arith_uint256.cpp:207-249 | what GetCompact writes for a number and a sign, SetCompact reads as that sign and the rounded number without overflow; only zero loses its sign |
| `Compact.TargetBelowMax` | src/chain.cpp:156-169 | a target that passed the checks can be incremented without wrapping |
| `Compact.ProofFormula` | src/chain.cpp:164-168 | ~t / (t + 1) + 1 is 2^256 / (t + 1) rounded down |
| `Compact.GetBlockProof` | src/chain.cpp:156-169 | the work of a block is 2^256 / (target + 1) rounded down, and zero for invalid targets; it never divides by zero |
| `Base58.ConvertBack` | src/base58.cpp:22-110 | converting digits between any two bases and back restores them, with leading zeros |
| `Base58.DecodeRoom` | src/base58.cpp:34-35 | the buffer allocated for n characters holds every number of n base-58 digits |
| `Base58.EncodeRoom` | src/base58.cpp:82-83 | the buffer allocated for n bytes holds every number of n bytes |
| `Base58.MulAdd` | src/base58.cpp:45-51 | the carry loop multiplies and adds in place, and no carry is left |
| `Base58.EncodeBase58` | src/base58.cpp:72-110 | a '1' for each leading zero byte, then the digits of the number |
| `Base58.AlphabetOrdered` | src/base58.cpp:20 | the alphabet is in the order of the character codes |
| `Base58.AlphabetExactly` | src/base58.cpp:20 | the characters with a digit are exactly the ASCII digits and letters but 0, I, O and l |
| `Base58.DecodeBase58` | src/base58.cpp:22-70 | accepts exactly strings of the alphabet within whitespace, and gives their bytes |
| `Base58.DecodeEncoded` | src/base58.cpp:22-110 | decoding an encoded byte string gives it back, for all byte strings |
| `Base58.EncodeDecoded` | src/base58.cpp:22-110 | encoding what was decoded gives the string without surrounding whitespace, for all accepted strings |
| `BoolExpr.RemoveWhitespaces` | src/LibBoolEE.cpp:158-166 | the other characters in order |
| `BoolExpr.NameCharacters` | src/LibBoolEE.cpp:154-156 | the codes of the characters that belong to names |
| `Wrappers.SpaceCharacters` | src/LibBoolEE.cpp:158-166 | the codes of the characters that are removed as white space, here and around Base58 strings |
| `BoolExpr.SingleParse` | src/LibBoolEE.cpp:19-68 | the pieces between top-level operators, or the error |
| `BoolExpr.PiecesAreShorter` | src/LibBoolEE.cpp:19-68 | two or more pieces together are shorter than the string, so the recursion ends on every string |
| `BoolGrammar.ParsesExpr` | src/LibBoolEE.cpp:19-68 | after what is skipped, an expression is cut at exactly its top-level disjunctions |
| `BoolGrammar.ParsesChain` | src/LibBoolEE.cpp:19-68 | a conjunction is one piece at "or" and cut into exactly its operands at "and" |
| `BoolExpr.Resolve` | src/LibBoolEE.cpp:70-72 | terminates on every string with the value or the first error |
| `BoolExpr.ResolveRec` | src/LibBoolEE.cpp:74-146 | the same for a string without whitespace |
| `BoolExpr.Combine` | src/LibBoolEE.cpp:129-145 | the conjunction or disjunction of all pieces, without short cut |
| `BoolGrammar.SkippedIsJunk` | src/LibBoolEE.cpp:19-68 | what an accepted string begins with that is no piece has no parentheses, and the string is cut |
| `BoolGrammar.AcceptsExactly` | src/LibBoolEE.cpp:19-146 | a string is accepted exactly if without whitespace it is the text of an expression of the grammar over valued names, and evaluates to that expression's truth value |
| `BoolFormulas.EvaluatesFormulas` | src/LibBoolEE.cpp:19-146 | every formula tree, printed with the parentheses precedence needs and any others, with whitespace anywhere, evaluates to its truth value without error |
| `BoolFormulas.FormulasExactly` | src/LibBoolEE.cpp:19-146 | an accepted string is a printed formula exactly if a name, a negation or a parenthesis stands at its beginning, after every "(" and after every "or" |
| `BoolFormulas.SkipsJunk` | src/LibBoolEE.cpp:33-37 | any other characters before a binary formula are skipped |
| `BoolFormulas.SkipsAnAt` | src/LibBoolEE.cpp:33-37 | for one, an "@" before the disjunction of a and b, which is then no formula and evaluates like it |
| `BlockEncodings.PartiallyDownloadedBlock.PlacePrefilled` | src/blockencodings.cpp:59-76 | succeeds exactly if no prefilled transaction is null or beyond its bound, and then all are in place |
| `BlockEncodings.PartiallyDownloadedBlock.BindIds` | src/blockencodings.cpp:83-106 | the i-th short id is bound to the i-th position that is not prefilled, in 16 bits, never out of range; fails exactly on a collision or a crowded bucket |
| `BlockEncodings.BoundExactly` | src/blockencodings.cpp:83-106 | every short id is bound to its own position exactly if there are at most 65536 positions |
| `BlockEncodings.PositionWraps` | src/blockencodings.cpp:83-87 | of 65537 short ids the last is bound to the first position |
| `BlockEncodings.SearchEndsExactly` | src/blockencodings.cpp:82-86 | the search for the first free position ends exactly if fewer than 65536 transactions are prefilled |
| `BlockEncodings.SearchCanGoOn` | src/blockencodings.cpp:50-86 | a message that passes all tests before the search, on which it does not end |
| `BlockEncodings.PartiallyDownloadedBlock.MatchOne` | src/blockencodings.cpp:113-131 | a transaction fills the slot of its short id, or empties it on a conflict, and no other position changes |
| `BlockEncodings.PartiallyDownloadedBlock.ScanSource` | src/blockencodings.cpp:108-163 | a slot is filled only with a transaction of its short id, and emptied on a conflict; the count is exact; without conflicts every known transaction that is asked for gets its slot, also when the scan stops early |
| `BlockEncodings.PartiallyDownloadedBlock.InitData` | src/blockencodings.cpp:49-170 | invalid exactly for malformed messages, failed exactly on collisions or crowding; otherwise positions from 65536 on stay empty, and in blocks that fit 16 bits prefilled positions are untouched, every filled slot has its short id, and, if known transactions do not share short ids, every known transaction is used |
| `BlockEncodings.PartiallyDownloadedBlock.FillBlock` | src/blockencodings.cpp:178-219 | invalid exactly if the number of transactions given is wrong; otherwise the gaps are filled in order |
| `BlockEncodings.Announce` | src/blockencodings.cpp:19-29 | the coinbase prefilled and a short id for every other transaction |
| `BlockEncodings.HoldsSenders` | src/blockencodings.cpp:49-170 | if short ids tell transactions apart, every position holds the sender's transaction or nothing |
| `BlockEncodings.AsksForUnknown` | src/blockencodings.cpp:108-163 | then exactly the positions of transactions the receiver does not know stay empty |
| `BlockEncodings.WriteIndexes` | src/blockencodings.h:64-67 | each index as its distance from the one before |
| `BlockEncodings.ReadIndexes` | src/blockencodings.h:43-62 | the running sum, or the exception |
| `BlockEncodings.IndexesRoundTrip` | src/blockencodings.h:39-70 | strictly increasing 16-bit indexes are read back as written |
| `BlockEncodings.AcceptedAndIncreasing` | src/blockencodings.h:46-61 | a request is accepted and increases exactly if its last index, counted without wrapping, fits 16 bits |
| `BlockEncodings.ReadIncreases` | src/blockencodings.h:55-61 | an accepted request increases exactly if the distances before the last, and one for each of them, add up to at most 65535 |
| `BlockEncodings.OffsetWraps` | src/blockencodings.h:55-61 | the request 65535, 0 is accepted and does not increase |
| `BlockEncodings.Relay` | src/blockencodings.cpp:19-219 | announce, match, request, fill: the receiver ends with exactly the sender's block, and asks for exactly the transactions it does not know |
| `Amount.DecompressCompress` | src/compressor.cpp:134-186 | decompressing a compressed number gives it back, for all numbers |
| `Amount.CompressDecompress` | src/compressor.cpp:134-186 | and conversely, so that the two are mutually inverse bijections |
| `Amount.CompressForm` | src/compressor.cpp:129-160 | the last digit is the number of zeros dropped, at most nine, and the rest counts the numbers that do not end in zero, or after nine zeros all |
| `Amount.CompressBound` | src/compressor.cpp:143-160 | a compressed number is at most nine times the number |
| `Amount.CompressAmount` | src/compressor.cpp:143-160 | the compressed number modulo 2^64; the assertion on the digit holds |
| `Amount.DecompressAmount` | src/compressor.cpp:162-186 | the decompressed number modulo 2^64 |
| `Amount.RoundTripExact` | src/compressor.cpp:134-186 | the 64-bit codec restores an amount exactly if its last digit is zero or 9n plus that digit minus 9 fits 64 bits |
| `Amount.SmallAmountsFit` | src/compressor.cpp:134-186 | every amount up to (2^64 - 1) / 9 does |
| `Amount.MoneyRangeIsTooWide` | src/amount.h:27-28 | an amount in the money range that does not survive |

## Left out

- AddrManFile.Unserialize: reads streams that Serialize wrote; corrupt streams, other bucket counts and format version 0 are outside.
- The random choice of an address to connect to (Select_, GetChance): floating point and probabilistic termination.
- Check_ as code: its conditions are the invariant.
- The best block of a coin view (GetBestBlock, SetBestBlock): only that Flush passes the hash down.
- Asset bookkeeping in AddCoins and SpendCoin, and the wallet and message hooks beside them.
- Sizes of partial Merkle trees beyond 32 bits: widths are not wrapped.
- Cuckoo.Cache.constructor: sizes above 2^32 - 8 are outside, because no bytes are allocated for their flags; the depth limit is a parameter, because the code takes it from a single-precision logarithm of the size.
- Atomicity of the flags in the cuckoo cache, and its memory sizing by bytes.
- Fairness of the check queue, and its destruction.
- BoolGrammar.AcceptsExactly: valuations of names only, as callers build them; a valuation of other strings would make those accepted too.
- Rounding of fee rates to doubles in the two comparisons of packages: they are exact in the model.
- Merkle branches (ComputeMerkleBranch), and the Merkle root of witnesses.
- Log counters in block assembly and in the matching of compact blocks.
- Everything of CreateNewBlock besides the selection of transactions: coinbase, header, validity test.
- The search of the active chain by time (FindEarliestAtLeast).
- The proof-of-work types of blocks in GetBlockProof with two arguments.
- Bloom.RollingBloomFilter.constructor: a capacity of zero is outside, because the code would then reduce hashes modulo zero.
- The sizing of the rolling Bloom filter from a false-positive rate, and false-positive probabilities: the sizes are parameters.
- Conversions of 256-bit numbers to hexadecimal and floating point, and the bitwise operators on whole numbers.
- Base58Check and address types: they add a checksum by an unmodelled hash.
- Base58.DecodeBase58: takes the characters of a C string before its terminator.
- BlockEncodings.PartiallyDownloadedBlock.InitData: which transactions are filled in for blocks of more than 65536 positions, where bound positions wrap.
- BlockEncodings.PartiallyDownloadedBlock.BindIds: what happens where the search for a free position does not end; SearchEndsExactly says where.
- The byte form of compact block messages other than the list of indexes.
- Script compression beside amount compression.
- Networking, storage, RPC, wallet, assets, difficulty retargeting and scripts.
