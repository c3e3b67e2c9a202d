# A verified model of the Safire node's core

The Safire node keeps every block it receives, including competing variants of the same slot, and decides from what it
has stored which chain is canonical. This project models that block store, and the code it rests on, and proves what a
maintainer relies on:

* **Block store** (`src/blockdb.cpp`). `Blocks`, `BestChain`, `Rebuild`, `ChainStore`, `StoreLaws`, `Successors`,
  `BlockDatabase`, `Runs`, `Contents`, `NextKeys`, `LatestKeys`, `Roots`, `FastPath`, `Checkpoints`, `Adoption`,
  `Branches`, `Consensus`, `Scenarios`. The key-value store is a value `Db` with one field per family of keys; the class
  `BlockDb` updates it key by key in the source's loops, and every method is proved to compute a function of the old
  store. Those functions are then proved against independent definitions: hash-linked paths, full scans, runs of
  connected envelope-valid blocks. The main results are that the rebuilt chain is a longest path from a genesis candidate
  with the highest tip, that it depends on the set of stored blocks only, that the incremental caches agree with full
  scans after any run, that after any run adoption of a hash succeeds exactly when it is stored on a root with the first
  number, exactly when the checkpoint lets a rebuild skip the selection, and exactly where each operation puts the
  checkpoint.
* **256-bit arithmetic and the in-memory chain** (`src/arith_uint256.*`, `src/chain.*`). `Arithmetic`, `Limbs`,
  `ArithUint256`, `Compact`, `ChainIndex`. Eight 32-bit limbs in an array, changed in place, are proved to be arithmetic
  modulo 2^256; division is exact; the compact format rounds down, keeps order and is stable; skip pointers agree with
  parent walking.
* **Codecs and buffers** (`src/base58.cpp`, `src/serialize.h`, `src/streams.h`). `Radix`, `Base58`, `Serialize`,
  `BufferedFile`. Round trips in both directions, buffers that never overflow, and a ring buffer that returns exactly
  the source's bytes whatever short reads it gets.
* **Replay of the chain** (`src/carryforward.cpp`, `src/cli.cpp`). `ChainWalk`, `Ledger`, `Names`. The walk along
  `getNextBlock` visits exactly the committed chain after a rebuild; conservation of currency over a whole chain; one
  reward per recipient and period; a name index that is exactly the inverse of the members' names.

`Text` holds the order on strings and the white space, `Sequences` the reverse of a sequence and `Options` the option type.

## Where the code does less than it seems to promise

Each of these is stated as an exact condition, and where the condition is not plain from the statement, with an example.

* The stored latest hash goes stale when a new block takes over the slot of the latest block, or when the latest number
  is pointed at an empty slot, and stays so until an operation sets the latest block again; no other operation does it
  (`LatestKeys.StepInStepIff`, `LatestKeys.LatestHashInStepIff`, `Scenarios.LatestHashGoesStale`).
* Adopting the chain whose last block is already the tip returns success without repairing the canonical index below it
  (`StoreLaws.AdoptionAnswersIff`, `Consensus.AdoptionAfterAdditions`, `Scenarios.AdoptionLeavesVariant`).
* A rebuild tries one branch only: it trims the selected chain to what the validator accepts. What it commits is
  unbeaten among all paths from a genesis exactly when the validator accepts the whole selection; otherwise it can even
  drop an accepted canonical tip (`StoreLaws.UnbeatenIffAccepted`, `Scenarios.RebuildPassesOver`,
  `Scenarios.BranchUnchecked`).
* `getNextBlock` can answer with a block of another branch, so that balances and names are replayed over two branches:
  exactly when the keys lead to a block that is no child and every stored child loses to it
  (`Branches.NextAfterAnyRun`, `Branches.WalkAfterAnyRun`, `Scenarios.WalkCrossesBranches`).
* A 256-bit number multiplied by itself in place comes out zero (`ArithUint256.Uint256.MulAssign`).
* A transfer to oneself is credited and never debited: it creates its amount and its fee (`Ledger.ConservedIff`,
  `Scenarios.SelfTransferCreates`).
* The buffered file rewinds less than the promised number of bytes once it has read ahead
  (`BufferedFile.BufferedFile.SetPos`, `BufferedFile.RewindPromiseFails`).
* A VarInt that does not fit its type is accepted and wraps, so a value can have a second spelling
  (`Serialize.OnlySpellingIff`, `Serialize.SecondSpelling`).

## Model

| member | source | states |
|---|---|---|
| `Blocks.PreferChildStrictTotalOrder` | src/blockdb.cpp:129-198 | with the two maps fixed, the child preference is irreflexive, total and transitive on real blocks with distinct hashes |
| `Text.LessIff` | src/blockdb.cpp:136 | one hash is smaller exactly when at the first difference it ends or has the smaller character |
| `Blocks.PreferIsRank` | src/blockdb.cpp:129-137 | a variant is preferred exactly when it has more records, or as many and the smaller hash |
| `BestChain.PlansSolve` | src/blockdb.cpp:1174-1225 | the recursively defined best continuations satisfy the dynamic program's equations at every stored block |
| `BestChain.SolutionUnique` | src/blockdb.cpp:1152-1225 | only one table of lengths, tips and best children satisfies them: the store's contents decide it |
| `BestChain.ReadOffIsPath` | src/blockdb.cpp:1236-1258 | what is read off the best-child map is a hash-linked path of the tabulated length ending at the tabulated tip |
| `BestChain.ReadOffFollowsPlans` | src/blockdb.cpp:1236-1258 | each block of it is followed by its tabulated best child, and the last has none |
| `BestChain.PlanIsBest` | src/blockdb.cpp:1174-1225 | no hash-linked path from a block is longer than its plan, or as long with a higher tip |
| `BestChain.PathRises` | src/blockdb.cpp:1236-1258 | numbers strictly rise along a path, so no hash is met twice |
| `BestChain.FullChainIsLongest` | src/blockdb.cpp:1115-1258 | the selected chain starts at a genesis candidate and no path from any candidate is longer, or as long with a higher tip |
| `BestChain.FavouriteOutranks` | src/blockdb.cpp:155-198 | between continuations of equal length and tip the chosen child has more records, or as many and the smaller hash |
| `BestChain.CutAtLimit` | src/blockdb.cpp:1245-1247 | the chain is cut to its first 20000 blocks |
| `Rebuild.SortIsDescending` | src/blockdb.cpp:1160-1172 | the processing order has non-increasing numbers |
| `Rebuild.IndexHashes` | src/blockdb.cpp:1119-1131 | the map by hash holds exactly the stored hashes, and the genesis list exactly the blocks with the first number and no predecessor |
| `Rebuild.CollectChildren` | src/blockdb.cpp:1133-1142 | the child lists hold exactly the stored blocks that connect to each block |
| `Rebuild.IndexBlocks` | src/blockdb.cpp:1119-1150 | both together, with the canonical first block as the fallback candidate |
| `Rebuild.PickFavourite` | src/blockdb.cpp:1186-1201 | the inner loop returns the one child no other beats, whatever the order of the list |
| `Rebuild.AllAboveDone` | src/blockdb.cpp:1160-1202 | every child of a block is processed before the block |
| `Rebuild.FavouriteChild` | src/blockdb.cpp:1180-1202 | the favourite's entry exists, and the block's plan is one longer than it with the same tip; without children the plan is the block alone |
| `Rebuild.TabulateOne` | src/blockdb.cpp:1204-1224 | after a block's entries are written the three maps agree with the plans of all blocks done |
| `Rebuild.Tabulate` | src/blockdb.cpp:1174-1225 | the loop from high numbers down fills the maps with the unique solution |
| `Rebuild.PickGenesis` | src/blockdb.cpp:1152-1234 | the genesis is the favourite among the candidates, whatever their order |
| `Rebuild.WalkBestChildren` | src/blockdb.cpp:1236-1258 | the walk returns the full chain cut to its first 20000 blocks and never meets a visited hash |
| `Rebuild.SelectChain` | src/blockdb.cpp:1115-1258 | for a list of blocks in any order the result is the cut of the best chain of the set of blocks |
| `ChainStore.GetBlockIndexed` | src/blockdb.cpp:1697-1735 | in an indexed store a lookup by number returns the canonical stored block with that number, or none |
| `StoreLaws.DescendIsRun` | src/blockdb.cpp:490-499 | the checkpoint walk is a run of at most the given number of stored, connected, envelope-valid blocks |
| `StoreLaws.AdvanceLaw` | src/blockdb.cpp:478-511 | the checkpoint never falls, stays sound, nothing else changes, and a written one lies at most 2000 links below the tip |
| `StoreLaws.AdvanceMoves` | src/blockdb.cpp:478-511 | seen from the canonical latest block, a checkpoint that changed is at most 2000 links below it |
| `Checkpoints.DescendIsDeepest` | src/blockdb.cpp:490-499 | the walk ends at the first block of the run with that many links, or of the shorter one that has nowhere to go on to |
| `Checkpoints.AdvanceExact` | src/blockdb.cpp:478-511 | with no checkpoint, or one at least 4000 below an envelope-valid tip, the checkpoint becomes the first block of the run of 2000 links, or fewer, if that lies above the old one; otherwise it stays |
| `Checkpoints.StepExact` | src/blockdb.cpp:720-1463 | every operation leaves the checkpoint exactly so: a block on top of the latest, a rebuild that succeeds and an adoption that rewrites look at it, and no other |
| `Checkpoints.CheckpointFromGrowth` | src/blockdb.cpp:867-874 | once a block has been added on top of the latest block there is a checkpoint, whatever else the run does |
| `StoreLaws.PutHashesAt` | src/blockdb.cpp:1290-1308 | writing part of a chain makes it canonical there and leaves the rest of the chain's numbers as they were |
| `StoreLaws.WriteKeeps` | src/blockdb.cpp:1421-1438 | writing a stored chain changes no stored block and keeps every index consistent |
| `StoreLaws.WriteLinks` | src/blockdb.cpp:1275-1308 | the next keys of a chain written after clearing are exactly its consecutive pairs |
| `StoreLaws.FinishLaw` | src/blockdb.cpp:1310-1312 | latest number, latest hash and connected tip name the last block, lookups answer the chain, the invariant holds |
| `StoreLaws.AcceptedPrefixIsLongest` | src/blockdb.cpp:1260-1269 | trimming gives the longest prefix the validator accepts |
| `StoreLaws.SelectedIsLongest` | src/blockdb.cpp:1115-1258 | the selected chain is the first 20000 blocks of a path that beats every path from a genesis candidate |
| `StoreLaws.SelectedIsPath` | src/blockdb.cpp:1115-1258 | it is a path from a genesis candidate, and empty exactly if there is no candidate |
| `StoreLaws.CommitLaw` | src/blockdb.cpp:1275-1312 | after the commit lookups answer the chain, the next keys are exactly its links, and the tip keys name its last block |
| `StoreLaws.SlowRebuildLaw` | src/blockdb.cpp:1260-1331 | the slow path commits the longest accepted prefix of the selected chain, or changes nothing when there is none |
| `StoreLaws.UnbeatenIffAccepted` | src/blockdb.cpp:1236-1269 | what is committed is beaten by no path from a genesis candidate, up to the cut, exactly when the validator accepts the whole selected chain |
| `StoreLaws.ClimbIsRun` | src/blockdb.cpp:552-568 | a climb along next keys that ends is a run of stored, connected, envelope-valid blocks |
| `StoreLaws.FastPathSound` | src/blockdb.cpp:513-579 | a successful fast path implies such a run from the checkpoint to the canonical latest block, with no stored block above it |
| `FastPath.FastPathIff` | src/blockdb.cpp:513-579 | the fast path succeeds exactly when fewer than 20000 connected, envelope-valid next-hash steps lead from the canonical checkpoint to the canonical latest block, no stored block lies above it, and no number from the checkpoint on is stored twice |
| `StoreLaws.RebuildLaw` | src/blockdb.cpp:1091-1331 | a rebuild keeps the invariant and all blocks, and never lowers the checkpoint |
| `StoreLaws.WalkBackSound` | src/blockdb.cpp:1357-1396 | a walk that succeeds is a path to the configured genesis through stored, envelope-valid, connecting blocks |
| `StoreLaws.WalkBackComplete` | src/blockdb.cpp:1357-1396 | every such path is found by the walk from its last block |
| `StoreLaws.AdoptionIff` | src/blockdb.cpp:1333-1396 | adoption returns true exactly when such a path ends at the given hash |
| `StoreLaws.AdoptionWrites` | src/blockdb.cpp:1407-1438 | rewriting from the divergence on makes the whole chain canonical, though the part below is not written |
| `StoreLaws.AdoptionLaw` | src/blockdb.cpp:1333-1463 | after a rewrite lookups answer the adopted chain and its last block is the tip; otherwise nothing changes |
| `StoreLaws.AdoptionAnswersIff` | src/blockdb.cpp:1398-1405 | after success lookups answer the chain unless its last block was the tip already and the index disagrees with some block below |
| `Adoption.AlreadyTipIff` | src/blockdb.cpp:1398-1405 | nothing is rewritten exactly when the chain's last block is the canonical latest block |
| `Adoption.AdoptionLinks` | src/blockdb.cpp:1407-1438 | the next keys name the following block from one before the first disagreement on, and every other next key is as before |
| `Adoption.NextAfterAdoption` | src/blockdb.cpp:1417-1438 | so the next block of the last shared block, and of every later one, is the adopted one |
| `StoreLaws.SlotAdded` | src/blockdb.cpp:803-821 | one more slot key raises the fork count exactly when its slot was taken, and forks exactly that slot |
| `StoreLaws.EnterKeepsIndex` | src/blockdb.cpp:790-801 | entering a new block keeps the canonical, legacy and slot indexes consistent |
| `StoreLaws.EnterKeepsCaches` | src/blockdb.cpp:790-821 | and keeps fork count, latest fork slot and highest block equal to what full scans find |
| `StoreLaws.StoreBlockKeeps` | src/blockdb.cpp:790-875 | linking and moving the tip keep the invariant and leave the block indexes as the entry made them |
| `StoreLaws.AddLaw` | src/blockdb.cpp:720-906 | adding keeps the invariant, never lowers the checkpoint, and adds the block exactly when it is accepted and new |
| `StoreLaws.AddEffect` | src/blockdb.cpp:790-875 | what a stored block changes: itself in the blocks, its slot if it wins, and the latest keys exactly if it also stands on the latest block or is a first one |
| `BlockDatabase.CheckRecords` | src/blockdb.cpp:753-767 | true exactly when all record sizes fit and no nonempty record hash occurs twice |
| `BlockDatabase.SumVariants` | src/blockdb.cpp:320-331 | the count is the number of slot keys beyond one per slot, the latest the greatest number with more than one |
| `BlockDatabase.BlockDb.CountPerSlot` | src/blockdb.cpp:300-319 | each number's count is the number of its slot keys |
| `BlockDatabase.BlockDb.ScanForkVariants` | src/blockdb.cpp:300-332 | the full scan finds the fork count and the latest forked slot |
| `BlockDatabase.BlockDb.HasForkVariantAtOrAfter` | src/blockdb.cpp:339-372 | true exactly when a positive minimum is given and some slot from it on is forked |
| `BlockDatabase.BlockDb.ScanHighestStored` | src/blockdb.cpp:374-404 | the highest number of any stored block, or -1 |
| `BlockDatabase.BlockDb.HighestStored` | src/blockdb.cpp:406-417 | the cached value, or the scan's, which is then cached |
| `BlockDatabase.BlockDb.GetStoredBlocks` | src/blockdb.cpp:1631-1659 | every stored block once, no hash twice |
| `BlockDatabase.BlockDb.AdvanceCheckpoint` | src/blockdb.cpp:478-511 | the loop computes the store that AdvanceLaw is about |
| `BlockDatabase.BlockDb.SetLatestBlockId` | src/blockdb.cpp:974-992 | the number, and the hash of the block at that number if there is one |
| `BlockDatabase.BlockDb.FinishAt` | src/blockdb.cpp:1440-1442 | tip keys, connected tip and checkpoint become those of FinishLaw |
| `BlockDatabase.BlockDb.WriteChain` | src/blockdb.cpp:1290-1308 | the loop writes every family of keys as PutHashesAt and WriteLinks describe |
| `BlockDatabase.BlockDb.ClimbNextKeys` | src/blockdb.cpp:552-568 | the loop computes the climb that ClimbIsRun is about |
| `BlockDatabase.BlockDb.TryFastPath` | src/blockdb.cpp:513-579 | succeeds exactly when the tests of FastPathSound hold, and then moves the connected tip and the checkpoint only |
| `BlockDatabase.BlockDb.TrimToAccepted` | src/blockdb.cpp:1260-1266 | popping ends at the prefix AcceptedPrefixIsLongest is about |
| `BlockDatabase.BlockDb.SelectStored` | src/blockdb.cpp:1115-1258 | reading all blocks and selecting gives the chain of SelectedIsLongest |
| `BlockDatabase.BlockDb.RebuildSlowly` | src/blockdb.cpp:1115-1330 | select, trim and rewrite compute the store of SlowRebuildLaw |
| `BlockDatabase.BlockDb.RebuildBestChainIndex` | src/blockdb.cpp:1091-1331 | the fast path if it succeeds, else the slow one, and -1 without a first block |
| `BlockDatabase.BlockDb.WalkToGenesis` | src/blockdb.cpp:1357-1396 | the loop returns the path of WalkBackSound; the visited set never stops it because numbers fall |
| `BlockDatabase.BlockDb.FirstDivergence` | src/blockdb.cpp:1407-1419 | one before the first block the canonical index disagrees with |
| `BlockDatabase.BlockDb.AdoptStoredChainEndingAtHash` | src/blockdb.cpp:1333-1463 | computes the result and the store that AdoptionIff and AdoptionLaw are about |
| `BlockDatabase.BlockDb.GetNextBlockByHash` | src/blockdb.cpp:1737-1779 | next-hash key, next-number key, else the scan, which starts from what the keys left |
| `BlockDatabase.BlockDb.ScanForChild` | src/blockdb.cpp:1771-1778 | whatever the order of the blocks, the preferred stored child among those that beat the leftover, else the leftover |
| `BlockDatabase.BlockDb.GetNextBlockId` | src/blockdb.cpp:1565-1597 | the number key if positive, else the number of the connecting block the hash key names |
| `BlockDatabase.BlockDb.GetNextBlock` | src/blockdb.cpp:1781-1793 | computes the successor that NextAlongChain is about |
| `BlockDatabase.BlockDb.ValidateBlockForStorage` | src/functions/chainvalidator.cpp:459-527 | true exactly for a sealed block that matches the genesis or stands on a stored parent with its number, and whose records and creator pass |
| `Successors.FoldPrefers` | src/blockdb.cpp:1771-1778 | the scan ends on the one child no other beats |
| `Successors.ScanOutranks` | src/blockdb.cpp:1771-1778 | every other stored child has fewer records than the block the scan returns, or as many and the greater hash |
| `Successors.NextAlongChain` | src/blockdb.cpp:1737-1793 | along a committed chain the next block of each is the one after it |
| `BlockDatabase.BlockDb.EnterBlock` | src/blockdb.cpp:790-824 | the writes compute the store of EnterKeepsIndex and EnterKeepsCaches, and tell whether the block wins its slot |
| `BlockDatabase.BlockDb.CountVariant` | src/blockdb.cpp:803-821 | the fork count rises by one, or is scanned if absent, and the latest fork slot by the number |
| `BlockDatabase.BlockDb.LinkToParent` | src/blockdb.cpp:826-862 | the next keys of the parent, unless they lead to a block that still connects |
| `BlockDatabase.BlockDb.MoveTipTo` | src/blockdb.cpp:864-875 | the tip moves only for a first block or on top of the canonical latest block |
| `BlockDatabase.BlockDb.AddBlock` | src/blockdb.cpp:720-906 | every rejection, those of the validator included, and the new store, as AddLaw and AddEffect describe them |
| `BlockDatabase.BlockDb.GetForkVariantCount` | src/blockdb.cpp:1465-1478 | the full count, cached; the latest fork slot it rewrites was exact already |
| `Runs.StepKeeps` | src/blockdb.cpp:720-1478 | every operation, setting the latest number included, keeps the invariant, forgets no block and never lowers the checkpoint |
| `Runs.CachesAfterAnyRun` | src/blockdb.cpp:300-427 | after any run from the empty store fork count, latest fork slot and highest block equal full scans |
| `Runs.RunsOnlyAdvance` | src/blockdb.cpp:478-511 | along any run the checkpoint number never decreases and stored blocks stay |
| `Runs.StepMoves` | src/blockdb.cpp:478-579 | an operation that changes the checkpoint leaves it at most 2000 links below the canonical latest block |
| `Runs.CheckpointOrigin` | src/blockdb.cpp:478-579 | the checkpoint a run ends with was written at some moment of it, at most 2000 links below the latest block of that moment |
| `Contents.AddAnswersIff` | src/blockdb.cpp:735-788 | true exactly for a fitting, well-numbered block that is stored already, or is sealed, passes the rules, and is a genesis or stands on a stored block; refused and known blocks change nothing |
| `Contents.FitsAfterAnyRun` | src/blockdb.cpp:735-774 | after any run every stored block's records and JSON fit, its nonempty record hashes are distinct, and it is a configured genesis or names an earlier number |
| `Contents.AnswersTrueIffStored` | src/blockdb.cpp:720-906 | after any run `AddBlock` answers true exactly when the block is stored afterwards |
| `Contents.CopiesAfterAnyRun` | src/blockdb.cpp:796-801 | after any run the copy by number is the canonical block at every number |
| `Contents.RebuildAnswers` | src/blockdb.cpp:1091-1331 | a rebuild answers -1 and changes nothing, or the number that is the latest and the connected tip afterwards |
| `NextKeys.ParentLinked` | src/blockdb.cpp:847-861 | after linking, the parent's next-hash key leads to a stored block that connects to it: a stale key is repaired, a good one kept |
| `NextKeys.NumberKeyIff` | src/blockdb.cpp:827-845 | the predecessor's next-number key is kept exactly when it leads to a stored slot, and else names the new block |
| `NextKeys.HashKeyIff` | src/blockdb.cpp:847-861 | the parent's next-hash key is kept exactly when it leads to a stored block that connects to it, and else names the new block |
| `NextKeys.AddLinks` | src/blockdb.cpp:822-862 | a block that wins its slot is linked so, and any other changes no next key |
| `NextKeys.PutKeysLead` | src/blockdb.cpp:1431-1437 | writing any part of a connected stored chain keeps every next key leading to a stored child |
| `NextKeys.KeysLeadAfterAnyRun` | src/blockdb.cpp:826-862 | after any run each next-hash key leads to a stored block with that parent hash, each next-number key to a stored block with that predecessor |
| `LatestKeys.FirstAfterAnyRun` | src/blockdb.cpp:915-962 | whatever else a run does, the first block id is the one set last |
| `LatestKeys.RebuildEffect` | src/blockdb.cpp:1091-1331 | a rebuild either names its last block in the latest keys or leaves them and the canonical index alone |
| `LatestKeys.AdoptionEffect` | src/blockdb.cpp:1333-1463 | an adoption does so exactly when it rewrites, and else changes nothing |
| `LatestKeys.StepAnchors` | src/blockdb.cpp:974-992 | each operation keeps the latest number at a stored slot, except pointing it at an empty one |
| `LatestKeys.AnchoredAfterRun` | src/functions/functions.cpp:1124-1130 | so along any run that points it at stored slots only |
| `LatestKeys.StepInStepIff` | src/blockdb.cpp:720-1478 | for every operation, exactly when the latest hash is that of the canonical latest block afterwards |
| `LatestKeys.LatestHashInStepIff` | src/blockdb.cpp:974-992 | after any run it is, exactly when every take-over of the latest slot and every pointing at an empty one was followed by a setting of the latest block |
| `Roots.RootedAfterAnyRun` | src/functions/chainvalidator.cpp:459-527 | after any run every stored block is sealed and matches the genesis or connects to a stored parent |
| `Roots.SealedAfterAnyRun` | src/functions/chainvalidator.cpp:465-500 | after any run every stored block has a number, a hash, a creator, no more records than allowed and a seal that holds |
| `Roots.RootPath` | src/functions/chainvalidator.cpp:505-527 | stored, connecting, envelope-valid blocks lead from the root to the block |
| `Roots.AdoptsByRoot` | src/blockdb.cpp:1357-1396 | a stored hash is adopted exactly when the number of its root is the first block id |
| `Roots.AdoptionAfterAnyRun` | src/blockdb.cpp:1333-1463 | over any run adoption of a hash succeeds exactly when it is stored and its root has the first number |
| `Roots.NoneDeeper` | src/blockdb.cpp:1115-1258 | after any run no stored block whose root has the first number lies deeper than the selected chain, up to the cut |
| `Roots.NoAdoptionBeats` | src/blockdb.cpp:1333-1463 | so no chain that adoption accepts beats what a rebuild selects |
| `Roots.SelectionStarts` | src/blockdb.cpp:1128-1150 | after any run the selection starts at a stored block with the first number and no predecessor, which matches the configured genesis; without one, at the canonical first block |
| `Branches.NextStraysIff` | src/blockdb.cpp:1737-1793 | the next block does not connect exactly when the hash key names no child, the block the keys lead to is none, and every stored child loses to it |
| `Branches.NextAfterAnyRun` | src/blockdb.cpp:1737-1793 | the same for every stored block after any run |
| `Branches.NextInOrder` | src/blockdb.cpp:1744-1778 | the child that the hash key names comes first, then the one the number key names, and without keys no stored child outranks the answer |
| `Branches.NextIdAfterAnyRun` | src/blockdb.cpp:1565-1597 | after any run the next number is the key's, or without one that of the connecting block the hash key names, and belongs to a stored block with this predecessor |
| `Branches.WalkAfterAnyRun` | src/carryforward.cpp:80-128 | after any run the walk that replays the chain is one hash-linked path exactly when no block on it but the last strays |
| `Consensus.SameBlocksSameSelection` | src/blockdb.cpp:1115-1258 | nodes with the same blocks and first id, and a stored genesis or the same first block, select the same chain |
| `Consensus.RebuildsConverge` | src/blockdb.cpp:1091-1331 | after any two histories that hold the same blocks, slow rebuilds leave the same tip, next keys and answers |
| `Consensus.AddsKeepBest` | src/blockdb.cpp:795-801 | after any run without rebuild and adoption the canonical block of a slot is the preferred one among its variants |
| `Consensus.SlotWinner` | src/blockdb.cpp:795-801 | spelled out: the canonical block of a slot has the most records of the stored blocks of its number, and of those with as many the smallest hash |
| `Consensus.ArrivalOrderIrrelevant` | src/blockdb.cpp:720-801 | any two orders of arrival that end with the same blocks give the same canonical index |
| `Consensus.AdoptionAfterAdditions` | src/blockdb.cpp:1398-1405 | after additions alone, an adoption that rewrites nothing leaves lookups answering the chain exactly when each of its blocks is the preferred variant of its slot |
| `Scenarios.LatestHashGoesStale` | src/blockdb.cpp:795-801 | three additions from the empty store after which the latest hash names a block that lookups no longer give |
| `Scenarios.AdoptionLeavesVariant` | src/blockdb.cpp:1398-1405 | a run after which adoption succeeds, changes nothing and leaves another variant canonical |
| `Scenarios.RebuildPassesOver` | src/blockdb.cpp:1236-1269 | a run after which a rebuild falls back to the genesis and drops the canonical tip, although the path to the tip is accepted |
| `Scenarios.BranchUnchecked` | src/functions/chainvalidator.cpp:529-538 | the rejected blocks of that run do not extend the latest block, so storage applies no ledger rules to them |
| `Scenarios.WalkCrossesBranches` | src/blockdb.cpp:1737-1793 | four additions after which the walk goes from a block to one that does not stand on it |
| `Scenarios.SelfTransferCreates` | src/carryforward.cpp:93-105 | two additions after which an account that was issued one holds one and a half |
| `ArithUint256.Uint256.constructor` | src/arith_uint256.h:51-57 | the two low limbs hold the 64-bit number |
| `ArithUint256.Uint256.Copy` | src/arith_uint256.h:38-42 | a fresh array with the same limbs |
| `ArithUint256.Uint256.Assign` | src/arith_uint256.h:88-95 | the value becomes the 64-bit number |
| `ArithUint256.Uint256.EqualTo` | src/arith_uint256.cpp:122-133 | true exactly when the value is the 64-bit number |
| `ArithUint256.Uint256.GetLow64` | src/arith_uint256.h:245-249 | the value modulo 2^64 |
| `ArithUint256.Uint256.AddAssign` | src/arith_uint256.h:135-145 | addition modulo 2^256, also of a number to itself |
| `ArithUint256.Uint256.Complement` | src/arith_uint256.h:69-75 | 2^256 - 1 minus the value |
| `ArithUint256.Uint256.Increment` | src/arith_uint256.h:173-180 | plus one modulo 2^256 |
| `ArithUint256.Uint256.Decrement` | src/arith_uint256.h:190-197 | minus one modulo 2^256 |
| `ArithUint256.Uint256.Negate` | src/arith_uint256.h:77-84 | the additive inverse modulo 2^256 |
| `ArithUint256.Uint256.SubAssign` | src/arith_uint256.h:147-151 | subtraction modulo 2^256 by adding the two's complement |
| `ArithUint256.Uint256.MulAssign32` | src/arith_uint256.cpp:56-65 | multiplication by a 32-bit number modulo 2^256, intermediates within 64 bits |
| `ArithUint256.Uint256.AddRow` | src/arith_uint256.cpp:72-79 | one row of the product, carried exactly, intermediates within 64 bits; zeros stay zeros when the argument is the receiver |
| `ArithUint256.Uint256.MulAssign` | src/arith_uint256.cpp:68-81 | multiplication modulo 2^256; zero when the argument is the receiver |
| `ArithUint256.Uint256.PlaceLeft` | src/arith_uint256.cpp:30-33 | one limb's shifted bits are added to the value, up to a multiple of 2^256 |
| `ArithUint256.Uint256.ShiftLeft` | src/arith_uint256.cpp:22-36 | multiplication by a power of two modulo 2^256, for any shift |
| `ArithUint256.Uint256.PlaceRight` | src/arith_uint256.cpp:47-50 | one limb's shifted bits are added to the value, its low bits dropped at the end |
| `ArithUint256.Uint256.ShiftRight` | src/arith_uint256.cpp:39-53 | floor division by a power of two, for any shift |
| `ArithUint256.ShiftFits` | src/arith_uint256.cpp:84-107 | aligning the divisor loses no bit, and the numerator is below twice the aligned divisor |
| `ArithUint256.Uint256.SetBit` | src/arith_uint256.cpp:100 | setting a clear quotient bit adds its power of two |
| `ArithUint256.Uint256.DivideBit` | src/arith_uint256.cpp:97-105 | a round keeps quotient times divisor plus remainder and brings the remainder below the shifted divisor |
| `ArithUint256.Uint256.DivideFrom` | src/arith_uint256.cpp:97-105 | the loop ends with the division equation and a remainder below the divisor |
| `ArithUint256.Uint256.DivAssign` | src/arith_uint256.cpp:84-107 | the exact floor quotient, and an error exactly for a zero divisor |
| `ArithUint256.Uint256.CompareTo` | src/arith_uint256.cpp:110-119 | the sign of the comparison of the values |
| `ArithUint256.TopBit` | src/arith_uint256.cpp:176-180 | the highest set bit of a nonzero limb |
| `ArithUint256.Uint256.Bits` | src/arith_uint256.cpp:172-184 | the number of significant bits |
| `Compact.SetCompact` | src/arith_uint256.cpp:204-222 | the denoted number modulo 2^256; overflow exactly when it is at least 2^256; negative exactly for a nonzero number with the sign bit |
| `Compact.OverflowExact` | src/arith_uint256.cpp:218-220 | the three size tests say exactly when the shifted word needs more than 256 bits |
| `Compact.LeadingBytes` | src/arith_uint256.cpp:226-233 | the byte length and the leading three bytes |
| `Compact.FirstCut` | src/arith_uint256.cpp:234-239 | moving one byte down when the sign bit is set gives the least exponent that leaves it free |
| `Compact.GetCompact` | src/arith_uint256.cpp:224-245 | the encoding of the value, with the sign bit for a negative nonzero mantissa |
| `Compact.RoundsDown` | src/arith_uint256.cpp:204-245 | decoding an encoding clears the low bytes: at most the number, off by less than a unit |
| `Compact.KeepsLength` | src/arith_uint256.cpp:204-245 | the number of significant bits survives |
| `Compact.MantissaFull` | src/arith_uint256.cpp:226-239 | the mantissa of a nonzero number fills its three bytes but for the sign bit |
| `Compact.EncodingStable` | src/arith_uint256.cpp:204-245 | encoding the decoded number again gives the same word |
| `Compact.RoundingMonotone` | src/arith_uint256.cpp:204-245 | rounding through the compact form keeps the order |
| `Compact.NotAllOnes` | src/arith_uint256.cpp:204-222 | no compact word decodes to all ones, so the target plus one never wraps |
| `Compact.WorkOf` | src/chain.cpp:130-134 | floor(2^256 / (target + 1)) with 256-bit operations only |
| `Compact.GetBlockProof` | src/chain.cpp:122-135 | that, and zero for a negative, overflowing or zero target |
| `ChainIndex.InvertClearsLowest` | src/chain.cpp:72 | exactly the lowest set bit is cleared |
| `ChainIndex.SkipHeight` | src/chain.cpp:75-83 | the skip height is below every positive height |
| `ChainIndex.SkipEven` | src/chain.cpp:75-83 | from an even height the skip clears the lowest set bit |
| `ChainIndex.SkipOdd` | src/chain.cpp:75-83 | from an odd height it clears the two lowest set bits of the number below and adds one |
| `ChainIndex.SkipOddPower` | src/chain.cpp:75-83 | from one above a power of two it leads to height one |
| `ChainIndex.AncestorOfAncestor` | src/chain.cpp:85-109 | ancestors compose, whichever way one gets there |
| `ChainIndex.BlockIndex.GetAncestor` | src/chain.cpp:85-109 | over skip pointers exactly the block that parent walking reaches; NULL outside the range |
| `ChainIndex.BlockIndex.BuildSkip` | src/chain.cpp:116-120 | the new skip pointer is the ancestor at the skip height, and all skip pointers stay right |
| `ChainIndex.AppendKeeps` | src/chain.cpp:116-120 | appending a block keeps the links and skips of the index |
| `ChainIndex.Chain.SetTip` | src/chain.cpp:13-23 | from any consistent chain, growing or shrinking, the vector is the full path to the tip |
| `ChainIndex.Chain.FindFork` | src/chain.cpp:53-62 | the highest block both on the chain and in the given block's ancestry, or NULL if there is none |
| `ChainIndex.Chain.NextIsChild` | src/chain.h:442-448 | the next block on the chain is the one whose parent is the given block; NULL exactly for the tip and off the chain |
| `ChainIndex.Chain.StepBack` | src/chain.cpp:40-46 | by the vector or by skip pointers, the ancestor at the height |
| `ChainIndex.Chain.LocatorFrom` | src/chain.cpp:32-48 | the loop lists the hashes of the start's ancestors at exactly the locator heights |
| `ChainIndex.Chain.GetLocator` | src/chain.cpp:25-51 | the hashes of the ancestors of the block, or of the tip, at exactly the locator heights |
| `ChainIndex.LocatorHeightsFall` | src/chain.cpp:29-48 | the heights start at the block, strictly fall and end at zero |
| `ChainIndex.LocatorGaps` | src/chain.cpp:37-47 | the first eleven gaps are one, and every later one twice the one before, down to zero |
| `Radix.MinimalUnique` | src/base58.cpp:98-108 | a number has one row of digits without leading zeros |
| `Radix.EnoughDigits` | src/base58.cpp:34 | from one power inequality, how many digits of one base hold a number of the other |
| `Base58.EncodeRoom` | src/base58.cpp:81 | 138/100 of the length plus one always suffices |
| `Base58.DecodeRoom` | src/base58.cpp:34 | 733/1000 of the length plus one always suffices |
| `Base58.MulAdd` | src/base58.cpp:43-51 | the buffer's number times the base plus the digit, the carry ending at zero |
| `Base58.ToBase58` | src/base58.cpp:81-97 | the base 58 buffer holds the number of the bytes |
| `Base58.SpellFrom` | src/base58.cpp:103-108 | the ones, then the symbol of every digit |
| `Base58.EncodeBase58` | src/base58.cpp:71-109 | one '1' per leading zero, then the minimal digits of the rest |
| `Base58.FromBase58` | src/base58.cpp:36-53 | the base 256 buffer holds the number the word spells, or a character is not in the alphabet |
| `Base58.DecodeBase58` | src/base58.cpp:21-69 | the bytes that DecodeEncode and EncodeDecode are about, or failure |
| `Base58.DecodeEncode` | src/base58.cpp:21-109 | decoding an encoding gives every byte vector back, leading zeros included |
| `Base58.EncodeDecode` | src/base58.cpp:21-109 | a string that decodes is the encoding of its bytes with white space around it |
| `Base58.DecodeIff` | src/base58.cpp:21-69 | a string decodes to a byte vector exactly when it is the vector's encoding between two runs of white space |
| `Base58.CheckIff` | src/base58.cpp:121-145 | checked decoding gives a body exactly when the string decodes to it and its own checksum; it undoes checked encoding |
| `Serialize.DecEnc` | src/serialize.h:344-373 | reading undoes writing, whatever follows |
| `Serialize.EncDec` | src/serialize.h:344-373 | bytes that read as a number are its encoding, so each has one spelling |
| `Serialize.EncFormula` | src/serialize.h:304-313 | the last septet plus 128^i times one more than each septet before it is the number; all bytes but the last have the high bit |
| `Serialize.DocumentedExamples` | src/serialize.h:322-327 | the documented encodings |
| `Serialize.PrefixFree` | src/serialize.h:304-359 | no encoding is a proper prefix of another |
| `Serialize.EncLength` | src/serialize.h:344-359 | a value of w bits takes at most (w + 6) / 7 bytes |
| `Serialize.GetSizeOfVarInt` | src/serialize.h:328-339 | the number of bytes written |
| `Serialize.FillVarInt` | src/serialize.h:347-355 | the temporary buffer never overflows and holds the encoding backwards |
| `Serialize.WriteVarInt` | src/serialize.h:344-359 | the encoding is written |
| `Serialize.ReadVarInt` | src/serialize.h:361-373 | the number spelled, modulo 2^w, and the rest of the stream; failure exactly at its end |
| `Serialize.OnlySpellingIff` | src/serialize.h:361-373 | the bytes read are the encoding of the result exactly when the number they spell fits the type |
| `Serialize.SecondSpelling` | src/serialize.h:361-373 | the encoding of 2^w also reads as zero |
| `Serialize.CompactBack` | src/serialize.h:237-302 | every 64-bit size reads back unless it is above the maximum, which is refused; the size function is exact |
| `Serialize.CompactForms` | src/serialize.h:237-271 | the number itself below 253, else the tag 253, 254 or 255 and two, four or eight bytes, lowest first |
| `Serialize.CompactForth` | src/serialize.h:272-302 | bytes that read as a size are exactly what writing it produces |
| `BufferedFile.BufferedFile.Fread` | src/streams.h:589 | whatever the source offers, every cell holds the last source byte that maps to it |
| `BufferedFile.BufferedFile.Fill` | src/streams.h:581-596 | exactly how far it fetches; the rewind bytes are never overwritten; progress, end or failure are told apart |
| `BufferedFile.BufferedFile.Read` | src/streams.h:627-646 | exactly the source bytes at the reading position, or the reason why not; nothing is fetched that is buffered |
| `BufferedFile.BufferedFile.CopyChunk` | src/streams.h:634-645 | one copy out of the ring is a nonempty run of the source's bytes |
| `BufferedFile.BufferedFile.SetPos` | src/streams.h:654-665 | going back succeeds exactly when the distance and the bytes fetched ahead are within the rewind; otherwise the nearest position allowed |
| `BufferedFile.RewindPromiseFails` | src/streams.h:654-665 | a buffer of 10 with rewind 3: after one byte is read of seven fetched, going back to it fails and skips three |
| `BufferedFile.Reread` | src/streams.h:627-665 | read, rewind, read: if the rewind succeeds the same bytes come again |
| `BufferedFile.BufferedFile.SetLimit` | src/streams.h:681-686 | the limit moves exactly to positions not behind the reader |
| `BufferedFile.BufferedFile.FindByte` | src/streams.h:696-704 | stops on the first occurrence, and fails only with the source |
| `ChainWalk.NextOnWalk` | src/carryforward.cpp:121-127 | the next block of the walk, or its end at the latest block, no block or a repeated number |
| `ChainWalk.VisitedEnds` | src/carryforward.cpp:82-128 | where the walk ends, and why |
| `ChainWalk.WalkIsChain` | src/carryforward.cpp:80-128 | on a committed chain from the first block the walk visits exactly the chain, up to the limit |
| `ChainWalk.UpToExact` | src/carryforward.cpp:83-85 | of the chain exactly the blocks up to the checkpoint are visited |
| `ChainWalk.WalkAfterRebuild` | src/cli.cpp:793-836 | so after a slow rebuild the replays see the committed chain and nothing else |
| `Ledger.ValueReadsBack` | src/carryforward.cpp:19-38 | the checkpoint and period a node writes parse back |
| `Ledger.KeyNamesPeriod` | src/carryforward.cpp:40-49 | equal keys mean equal recipient and period, even with colons in recipients |
| `Ledger.OneRewardPerPeriod` | src/carryforward.cpp:40-67 | two claims collide exactly when they name the same recipient and period |
| `Ledger.ClaimIff` | src/carryforward.cpp:51-67 | a record as nodes write it claims a reward exactly with a sender, a recipient, a checkpoint below its block and no negative amount |
| `Ledger.ClaimNeeds` | src/carryforward.cpp:51-67 | whatever the text of its value, a rewarded record names a checkpoint below its block and a period |
| `Ledger.RewardedIff` | src/carryforward.cpp:111-119 | an entry is rewarded exactly when it is the first on the chain to claim its key |
| `Ledger.AcceptedOnce` | src/carryforward.cpp:111-119 | no key is accepted twice along the chain |
| `Ledger.ReplayRecord` | src/carryforward.cpp:89-119 | the branches for one record compute its effect on the account |
| `Ledger.ReplayBlock` | src/carryforward.cpp:87-120 | the loop over a block's records |
| `Ledger.ReplayWalk` | src/carryforward.cpp:82-129 | the loop along the store stops at the checkpoint, the latest block, a repeated number or the guard |
| `Ledger.AccountBalanceAtBlock` | src/carryforward.cpp:69-130 | the balance is the sum of the effects of all records on the walk from the first block to the checkpoint |
| `Ledger.BalanceIsFlows` | src/carryforward.cpp:87-120 | the balance is what was issued or sent to the account, less what it sent to others with fees and paid for votes, plus the fees of its own blocks and its rewards |
| `Ledger.EntryTotal` | src/carryforward.cpp:87-120 | over all accounts a record adds what it issues or rewards, plus what a transfer to oneself creates, and else nothing |
| `Ledger.Conservation` | src/carryforward.cpp:69-130 | the sum of all balances is what was issued plus one reward per accepted key plus what transfers to oneself create |
| `Ledger.ReplayConserves` | src/carryforward.cpp:69-130 | the same for the balances reported over all nonempty keys at any checkpoint |
| `Ledger.BalancesAfterRebuild` | src/carryforward.cpp:69-130 | after a slow rebuild the sum of all balances is what the committed chain issues, rewards and creates: blocks off the chain count for nothing |
| `Ledger.ConservedIff` | src/carryforward.cpp:93-105 | with positive transfers, currency is conserved exactly on chains without a transfer to oneself |
| `Ledger.SelfTransferBalance` | src/carryforward.cpp:89-105 | one issued and a half sent to oneself: one and a half |
| `Names.NormalizedPublicName` | src/cli.cpp:264-281 | the lower-case name for 3 to 32 letters, digits, dashes and underscores, else empty |
| `Names.SameNameIff` | src/cli.cpp:264-281 | two names normalize alike exactly when they differ at most in letter case |
| `Names.NormalizedIsName` | src/cli.cpp:264-281 | normalizing is idempotent and gives a permitted name |
| `Names.MemberIndexByKey` | src/cli.cpp:287-294 | the first member with the key, and -1 exactly for a key that did not join |
| `Names.IndexIsInverse` | src/cli.cpp:296-323 | the index of owners is exactly the inverse of the members' nonempty normalized names, and no name is shared |
| `Names.IndexAnswers` | src/cli.cpp:307-310 | asking the index is asking all members |
| `Names.RenameKeeps` | src/cli.cpp:312-321 | moving a member's entry keeps index and members together, also for a change of letter case only |
| `Names.Registry.ClaimPublicName` | src/cli.cpp:296-323 | succeeds exactly for a well-formed name, a member's key and a name no other member bears; keeps the invariant |
| `Names.Registry.ReplayRecord` | src/cli.cpp:797-820 | joins and renames as on the plain map of names, heartbeats by block number, keeping the invariant |
| `Names.StepTakes` | src/cli.cpp:797-820 | a record of a new or present member with a well-formed name no other bears leaves it with exactly that name; no other record changes a name |
| `Names.MembersJoined` | src/cli.cpp:797-815 | the members are the keys that sent a JOIN_NETWORK record |
| `Names.CurrentName` | src/cli.cpp:797-820 | a member's name is the one it got last, and empty if it got none |
| `Names.JoinedInOrder` | src/cli.cpp:797-815 | the members are the first JOIN_NETWORK records of their senders, in the order of the chain |
| `Names.Registry.Replay` | src/cli.cpp:781-836 | after any chain keys are unique, the index is exact, and names, members and heartbeats are those of the reference folds |
| `Names.Registry.ActiveMembers` | src/cli.cpp:838-847 | the members with a recent heartbeat, in order, or all if nobody sent one |
| `Names.ActiveMembershipRecords` | src/cli.cpp:781-849 | exactly the active members of the walked chain, each once, in joining order and with its current name, and no name twice |
| `Names.BeatsAreLast` | src/cli.cpp:821-825 | the number kept for a key is that of its last heartbeat, and a key without one sent none |
| `Names.ActiveKeeps` | src/cli.cpp:838-847 | the filter keeps exactly the active members, each once |
| `Names.ActiveIff` | src/cli.cpp:821-847 | a key is active exactly when nobody sent a heartbeat or its last one is at most 5760 blocks old |
| `Names.ActiveOrder` | src/cli.cpp:838-847 | the filter keeps the order of joining |
| `Names.NamesAfterRebuild` | src/cli.cpp:781-836 | after a slow rebuild the names are those the committed chain gives |
| `Names.RunUnshared` | src/cli.cpp:795-820 | no sequence of records gives two members one name |
| `Names.OwnerKeepsName` | src/cli.cpp:795-820 | a member keeps its name, and nobody else gets it, whatever the others send |

## Left out

- The graphical client, JavaScript sources, relay, `src/main.cpp`, and the printing and commands of `src/cli.cpp`: user interface and network plumbing.
- Signatures, hashes, merkle roots, JSON, `validateConnectedChain` and the size limits of a block: they are the predicates of `Env`. Of `validateBlockForStorage` the tests of records, ledger state and creator are the answer given to `AddBlock`; when the ledger rules apply is modelled. A block's JSON is taken to read back, and one hash to name one block.
- Reorganization metadata, schema migration, `bf_` keys, `DeleteAll`, `getConnectedLatestBlockId` and the lists of fork variants: bookkeeping that decides nothing above.
- `preferChainPath` and `collectReachableChainCandidates`: not called by the rebuild.
- Equality of the fast path with the slow rebuild: branches on disjoint slots make them differ; the fast path is proved sound.
- Locking, and the handles of the database: every operation is one step.
- The width of `long` for block numbers and of `uint64_t` for stream positions; `atol` beyond the range of `long`.
- `getdouble`, hexadecimal conversion and the bitwise assignments of the 256-bit type: easy members.
- `FindLatestBefore`, work equivalents and the disk index of `src/chain.h`.
- Base58.CheckIff: the double hash is any function to at least four bytes; the decoder reads the characters before the terminating NUL.
- Signed VarInt types and `CBufferedFile::Seek`.
- BufferedFile.BufferedFile.Read: the source's error and its end of file are one outcome.
- Ledger.AccountBalanceAtBlock: amounts are reals; floating-point rounding is not modelled.
- Names.ActiveMembershipRecords: the time block of the moment is a parameter.
