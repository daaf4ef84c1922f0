# Verified model of the 5FS on-disk filesystem

5FS is a complete on-disk filesystem: a journal over fixed superblocks, extendible-hash
directories, a refinement-tree allocator that stores its own tables in the space it hands
out, extent trees for file data, an AG map that makes block addresses independent of the
device, and POSIX names on top. This project models those parts in Dafny and proves what
each of them is for. It has no executable purpose; `dafny verify dfyconfig.toml` checks it.

The defaults are fixed: 4096-byte blocks, 31 records per table block, 16 inode slots per
block, 64 children per extent node and 6 at the root. Checksums are collision-free: a block
that verifies is the block that was written. SipHash is an arbitrary function from names to
64-bit values. Operations that change state are methods of classes with the fields the
program keeps; each is proved against functions and predicates on values, and the theorems
about whole runs are lemmas over those.

How the parts fit together:

* **Journal** (`Journal`, `CrashModel`, `CrashSafety`, `Volume`, `Recovery`, `TornSupers`,
  `Leftovers`).
  A device is a sequence of blocks and a log of writes with epochs; a power failure keeps
  all finished epochs and any subset of the open one, one write possibly torn. `CrashSafety`
  is the theorem over whole runs of commits. `Recovery` covers power failing inside
  recovery, any number of times, with the exact condition under which that is survived;
  the backup superblock is found through the first group's header only. `TornSupers` says what
  a backup that lags behind is worth when the primary is the torn write. `Leftovers` shows
  where the starting condition has to be stronger than the absence of valid transactions, and
  gives the exact condition.
* **Directories** (`BitShift`, `HashedDir`, `DirShape`, `DirSpace`, `Directory`, `DirLayout`,
  `DirOverflow`). The specification is a map from names to inode and type. Besides refinement and termination,
  the shape of a directory turns out to be a function of its contents alone, and `DirSpace`
  says when table and freelist fit the header block: on inserts always. `DirOverflow` is a run
  of inserts and removals that ends with one that does not fit.
* **Allocator** (`AllocTree`, `AllocOps`, `AllocCount`, `AllocSpec`, `FreeSpec`, `SlotSpec`,
  `AllocFormat`, `AllocRoom`, `Allocator`, `AllocRuns`, `AllocPool`, `FileBlocks`, `AllocAudit`). The
  specification is one state per block, the used inode slots, and three counters. An owner map ties used records to the
  refined places that refer to them, one to one. Success of an allocation and where it goes are
  characterised without the scan hints, by the states of blocks (`AllocRoom`). `AllocRuns` is the theorem over whole runs: every operation
  of the group is one of its steps, and both ways of formatting start one. `AllocPool` and
  `FileBlocks` tie the group to the pool of free blocks that file data is allocated from;
  `AllocAudit` is the consistency check's walk.
* **File data** (`Radix`, `ExtentTree`, `ExtentSpec`, `ExtentLookup`, `ExtentTrim`, `ExtentCost`,
  `Extents`, `FilePool`, `FileReader`). The specification is a partial map from file block to block
  address and the multiset of blocks owned. The allocator appears as a pool of free blocks and the
  units of those given. Two named assumptions say when it gives: `gives`, any condition on the pool,
  and `fair`, that a single block is refused only when none is left and nothing but rounding goes
  besides what was asked for. What is taken is accounted for without `fair`; with it, growing a file
  cannot fail while the pool has `Need` blocks. `FilePool` says which steps of a group are such.
* **Limits** (`Sizes`): the constants as what fits a block.
* **Resize** (`ResizeLaws`, `RelocateCopy`, `Resize`). The specification is what every block
  address reads.
* **Names** (`NamespaceLaws`, `NamespaceTree`, `Namespace`, `RenamePath`). The specification
  is the table of inodes with their entries; each operation also rewrites what is stored of the
  directories, through `DirLayout`. Counts and reachability are proved separately,
  since a rename into its own subtree keeps the one and breaks the other.

Where code and documentation differ the model follows the code. Findings:

* An abandoned attempt to commit can come back, in whole or beside half of a later one
  (`AbandonedCommitResurfaces`, `ShorterAttemptResurfaces`).
* Two power failures can leave no superblock to be found, although only one write was torn
  each time: the backup copy is located through a block that replay writes
  (`TwoFailuresLose`).
* Two power failures and one torn write can leave a volume that opens without complaint in a
  state it never was in: the open starts to heal and to replay in one epoch, the primary is torn,
  and from the stale backup nothing is pending (`StaleBackupCorrupts`). Which stale backups
  are harmless is exact (`OpenSurvivesAnyTearExactlyWhen`, `LongerListServesExactlyWhen`).
* Inserting a name never overflows a directory's header block. Removing one does exactly when
  `RemovalFits` does not hold, which takes the largest table and more than 507 bucket numbers
  once in use (`RemovalUsuallyFits`). That state is reached by ordinary use, if the hashes of the
  names allow it (`RemovalOverflows`).
* Freeing a piece of a run frees the allocated block behind it as well if the piece ends inside
  a granule (`PieceReturnsExactly`, `PieceOfTwenty`).
* A file whose run grew by appending blocks of a coarser unit right behind it cannot be truncated
  inside the appended part unless at one of its units: the cut is rounded by the unit of the
  first block (`MergedCutReleasesExactlyWhen`, `MergedRunRefusesCut`).
* Relocating a group upwards into its own region passes the overlap test, which leaves the group
  itself out, and loses contents (`MoveKeepsExactlyWhen`, `OnePieceExactlyWhen`); shrinking never
  asks for it.
* The consistency check does not notice shared table records (`SharingPasses`), nor table
  blocks none of whose records is referenced.
* `rename_at` itself does not refuse moving a directory into itself, and the guard on paths is
  textual (`RenameConnected`, `DotDisconnects`).

## Model

| member | source | states |
|---|---|---|
| Journal.ProbeShrinksDescs | src/journal.rs:132-162 | Each transaction that replay consumes leaves fewer descriptors numbered at or above the next expected number, so the replay loop ends on every image, whatever stale blocks the circular journal holds |
| Journal.ApplyAllPointwise | src/journal.rs:140-152 | Replaying in order leaves every location with the last write to it; what was there before does not matter where something is written |
| JournalVolume.Volume.Commit | src/journal.rs:83-90 | Succeeds exactly when the transaction fits, does nothing for an empty one, and otherwise leaves exactly the log of writes and epochs that the crash theorem is about |
| JournalVolume.Volume.CommitAt | src/journal.rs:91-128 | Journal, sync, apply, sync, then the lagging checkpoint: image, log, epoch and checkpoint afterwards, wrap to the journal start included |
| JournalVolume.Volume.WriteJournal | src/journal.rs:96-112 | The loop over data blocks writes descriptor, data and commit record in consecutive slots |
| JournalVolume.Volume.ApplyInPlace | src/journal.rs:113-120 | Writing the blocks to their targets one by one is applying the transaction |
| JournalVolume.Volume.TryReadTxn | src/journal.rs:190-234 | The block-by-block validation accepts exactly the transactions whose descriptor, data and commit record agree |
| JournalVolume.Volume.Replay | src/journal.rs:132-162 | Applies exactly the pending transactions in order, leaves the journal area as it was, and records the position behind the last one; with nothing pending it writes nothing |
| JournalVolume.Volume.JournalPending | src/journal.rs:166-186 | Returns exactly the number of transactions that replay would apply |
| JournalVolume.Volume.WriteSuperblock | src/fs.rs:176-188 | Both superblock copies get the next generation of the checkpoint |
| CrashSafety.CrashSafety | src/journal.rs:83-162 | From a durable checkpoint and a journal without a commit record numbered from it on: after any run of commits and one power failure (all finished epochs, any subset of the open one, at most one torn write), replay gives the metadata after exactly the first k transactions, k being the acknowledged count or one more |
| CrashSafety.OnlyTxnIsRead | src/journal.rs:190-234 | A lone commit record vouches for one transaction, at one place, with one content |
| CrashSafety.SuperSurvives | src/fs.rs:47-78 | With one torn write, none of them at the first group's header, at most one superblock copy is lost and the backup can be found: what is found is the old checkpoint or the new one |
| CrashSafety.PendingFromLaggingSuper | src/journal.rs:132-162 | When the superblock still points at the previous transaction, replay finds nothing, that one, or that one and the next, also when the next one wrapped over it |
| CrashSafety.CrashWhileJournaling | src/journal.rs:91-112 | Power failing while a transaction is journaled recovers to before or after it |
| CrashSafety.JournaledIsPending | src/journal.rs:113-116 | Once journaled and synced, a transaction is the one and only pending one |
| CrashSafety.CrashWhileApplying | src/journal.rs:113-122 | Power failing during the in-place writes recovers to the state after the transaction |
| CrashSafety.AfterSecondSync | src/journal.rs:120-128 | After the second sync the volume is ready for the next commit although the checkpoint may not have landed |
| CrashSafety.CrashBetweenCommits | src/journal.rs:121-128 | Power failing while only the checkpoint is unsynced loses nothing |
| Recovery.Open | src/fs.rs:24-78 | Opening for writing finds a superblock (the backup only if the first group's header parses), heals its copies and replays: metadata, journal and log afterwards |
| Recovery.NothingAfterEnd | src/journal.rs:132-162 | After replay nothing is pending at the new checkpoint, wherever the probes of index 0 led |
| Recovery.ReplayIsIdempotent | src/journal.rs:140-152 | Replaying over any mixture of old, final and partly applied blocks gives the same metadata |
| Recovery.CrashDuringOpen | src/fs.rs:24-78 | Power failing anywhere inside recovery leaves an image that recovers to the same metadata, if no superblock copy is torn and the primary was good or replay does not write the first group's header, or, whatever write is torn, if both copies were good, the header leads to the second, and replaying from there leads to the same metadata |
| Recovery.OpenSurvivesExactlyWhen | src/fs.rs:24-78 | As long as no superblock copy is torn, an open survives every power failure if and only if the primary is good or no pending transaction writes the first group's header |
| Recovery.OpenSurvivesAnyTearExactlyWhen | src/fs.rs:24-78 | With any one write torn, superblock copies included: an open survives every power failure if and only if it writes nothing, or both copies are good, the header parses whenever the primary is being written, and the backup's list of transactions, stale or not, ends every block it writes like the primary's and leaves out only what is in place already |
| TornSupers.LongerListServesExactlyWhen | src/journal.rs:132-162 | The usable form: a backup whose list goes through other transactions first and ends with the primary's serves if and only if those others are in place wherever the primary's list does not write |
| TornSupers.HalfLandedCheckpointSurvives | src/journal.rs:123-128 | So the ordinary stale backup, left when only the primary got a commit's checkpoint, is harmless: the next open survives every power failure, any write torn |
| TornSupers.StaleBackupCorrupts | src/fs.rs:24-78 | A volume, two commits and two power failures with one torn write after which it opens in a state it never was in: one block of the second commit new, the other old, nothing pending |
| TornSupers.TornChainsExactlyWhen | src/fs.rs:24-78 | When superblock copies may be torn as well, every chain of cut opens ends with the same metadata if and only if the first open has nothing to write |
| Recovery.TwoFailuresLose | src/fs.rs:47-78 | Any commit that writes the first group's header can be cut, while the primary superblock is written, so that a second failure in the next open leaves no superblock to be found |
| Recovery.RepeatedCrashes | src/journal.rs:132-162 | However often recovery is cut short without tearing a superblock copy, a volume meeting that condition at the start ends with the same metadata |
| Recovery.RepeatedCrashesExactlyWhen | src/journal.rs:132-162 | The condition at the start is also needed: it alone decides whether every such chain of cut opens ends with the same metadata |
| Leftovers.BothSupersNeeded | src/fs.rs:47-78 | A superblock update survives every power failure if and only if both copies were good before it and the first group's header parses |
| Leftovers.CommitIsSafeExactlyWhen | src/journal.rs:83-128 | Whatever commit records with the next number earlier attempts of any size left in whatever slots (none with a higher number): power failing while a transaction is journaled recovers to before or after it if and only if no such attempt can be completed by the new blocks, be reached by replay, and differ from both; the condition speaks of the journal before the commit |
| Leftovers.EndangeringCrash | src/journal.rs:91-112 | For every endangering attempt there is a power failure after which replay applies neither the old nor the new state |
| Leftovers.NoRecordNoDanger | src/journal.rs:83-128 | Without a commit record numbered from the next one on, nothing endangers a commit |
| Leftovers.AbandonedCommitResurfaces | src/journal.rs:132-162 | A concrete volume without any valid transaction on which such a power failure resurrects abandoned contents: absence of valid transactions is too weak a starting condition |
| Leftovers.ShorterAttemptResurfaces | src/journal.rs:132-162 | What one power failure leaves of a one-block attempt is completed by a two-block commit: replay applies the one without the other |
| BitShift.ShrGroup | src/dir.rs:38-43 | The numbers whose top bits are a given prefix are exactly one aligned group |
| HashedDir.SplitInv | src/dir.rs:345-364 | Splitting a bucket keeps the extendible-hash invariant (aligned slot groups, hash prefixes, live buckets and freelist covering all numbers without repetition) and the map shown |
| HashedDir.DoubledInv | src/dir.rs:335-344 | Doubling the table keeps invariant and map, and moves no name to another bucket |
| HashedDir.HalvedInv | src/dir.rs:455-470 | Halving keeps invariant and map whenever every pair of slots agrees |
| HashedDir.MergedInv | src/dir.rs:425-454 | Merging two buddies that fit one block keeps invariant and map |
| Directory.Directory.DirFind | src/dir.rs:243-262 | Finds exactly the names of the map, with their inode and type, in either layout |
| Directory.Directory.DirList | src/dir.rs:218-241 | Lists exactly the entries of the map, each once |
| Directory.Directory.DirInsert | src/dir.rs:270-298 | Fails on existing names exactly, otherwise adds the one entry; the only other error is the depth limit, reported exactly for new names crowded out by entries sharing their top hash bits; the header never overflows, and the layout turns hashed exactly when the inode's payload is full |
| Directory.Directory.DirToHashed | src/dir.rs:300-314 | Conversion to the hashed layout keeps the map |
| Directory.Directory.HashedInsert | src/dir.rs:316-372 | The split loop ends (the target bucket's depth rises towards the limit), keeps every entry and adds the new one; a bucket with room is not split |
| Directory.Directory.SplitBucket | src/dir.rs:331-364 | One round of the loop: invariant, map and tightness kept, the target one bit deeper, and the header with its freelist always fits |
| Directory.Directory.TryMerge | src/dir.rs:419-475 | Ends, keeps the map, and leaves no two equally deep buddies that fit one block and a global depth equal to the largest local one; it fails exactly when the header has no room for the bucket numbers that come back before the table is halved |
| Directory.Directory.MergeOnce | src/dir.rs:425-454 | Merges the first pair that fits, or reports that none does |
| Directory.Directory.DirRemove | src/dir.rs:479-519 | Missing names are reported exactly; otherwise takes the one entry out of the map and returns it, collapsing to empty exactly with the last one and merging as needed, unless the header overflows, and exactly then it fails |
| Directory.Directory.HashedRemove | src/dir.rs:498-519 | The same in hashed form, with the merge that follows |
| Directory.Directory.EmbedRemove | src/dir.rs:481-497 | The same in the inode payload, by repacking |
| Directory.Directory.DirCheck | src/dir.rs:374-415 | Reports no problem exactly on directories passing the structural conditions it tests, and none on any directory the operations leave |
| Directory.CleanFinds | src/dir.rs:374-415 | What passing means: every listed entry is found through the hash of its name |
| Directory.CleanIsInvButFor | src/dir.rs:374-415 | A directory that passes satisfies the invariant if and only if what the check does not test holds too: no number freed twice, no bucket without a slot, slots shared by prefix, buckets within a block, no name twice |
| DirShape.LeastDepth | src/dir.rs:419-475 | Every bucket has the least depth at which the names with its hash prefix fit one block |
| DirShape.ShapeIgnoresHistory | src/dir.rs:316-475 | Depth, local depths and bucket contents depend on the entries alone, not on the inserts and removals that led to them |
| DirShape.FullBucketIsCrowded | src/dir.rs:327-369 | The depth limit is hit only when the entries with the name's top hash bits leave it no room in a block |
| DirShape.AddedWasNotCrowded | src/dir.rs:327-369 | A name that was added was not crowded out |
| DirSpace.SplitFits | src/dir.rs:155-181 | With the largest table, a tight directory has enough live buckets for table and freelist to share the header block |
| DirSpace.TightHasBuckets | src/dir.rs:419-475 | A directory whose depth is attained has more live buckets than its depth |
| DirOverflow.RemovalFitsWhileCrowded | src/dir.rs:419-475 | A removal cannot overflow the header as long as some names sharing eight leading hash bits do not fit one block afterwards, at whatever depth and with however many numbers given back |
| DirOverflow.RemovalOverflows | src/dir.rs:155-181 | It does happen: 2048 names of full length go in and all but eight come out again, each time with success; taking out the next one fails for want of room in the header |
| DirLayout.InsertInto | src/dir.rs:270-298 | The same insertion on what is stored of a directory, as a transaction reads and rewrites it |
| DirLayout.RemoveFrom | src/dir.rs:479-519 | The same removal: fails for a missing name or, exactly when it has no room, with the header overflow; while hashed, the count of bucket numbers stays |
| DirSpace.RemovalUsuallyFits | src/dir.rs:155-181 | A removal can only overflow the header at the largest depth and when more than 507 bucket numbers have been in use |
| Allocator.FindRun | src/alloc.rs:641-653 | The first run of m FREE children, found exactly when there is one |
| AllocSpec.WrapCovers | src/alloc.rs:635-638 | A wrapping scan visits every index |
| Allocator.Group.AddAg | src/resize.rs:29-53 | The formatting of an added group satisfies the allocator invariant; free and reserved counts are the tally; nothing is held yet |
| Allocator.Group.FirstAg | src/mkfs.rs:157-224 | The hand-built state of the first group satisfies the invariant: three owned records, one slot block holding the root inode (and the kernel's), header counts equal to the tally; those inodes are all that is held |
| AllocFormat.FirstTreeSteps | src/mkfs.rs:195-214 | The hand-written records are what refining twice, taking a block and giving it slots would have produced |
| Allocator.Group.TblAllocRec | src/alloc.rs:142-195 | A record is had exactly when the arena has an unused one or some cell is FREE; it is fresh, lies in a reserved cell, and claiming a cell moves the counters by a cell |
| Allocator.Group.RefineL0 | src/alloc.rs:218-225 | Refining a FREE cell: when it works, ownership, blocks, slots and counts afterwards, and at most one cell claimed, never the one being refined |
| Allocator.Group.RefineL1 | src/alloc.rs:228-241 | The same for a FREE child of a cell's record |
| Allocator.Group.AllocL0 | src/alloc.rs:271-293 | Whole cells: found exactly when a run of FREE cells exists, the lowest one; the blocks handed out were free, nothing else moved |
| Allocator.Group.AllocL1 | src/alloc.rs:296-331 | Units of 16 blocks: succeeds exactly when a cell in use has the free groups, or a wholly free cell and a record can be had, whatever the hints; it takes the first such groups of a cell in use, the lowest whole cell otherwise, and claims an arena cell exactly when no record is unused |
| Allocator.Group.AllocL2 | src/alloc.rs:334-398 | Single blocks: three passes together succeed exactly when space and records allow, whatever the hints; a free group stays whole as long as a group in use has room, and a free cell as long as a cell in use has a free group |
| Allocator.Group.AllocExtent | src/alloc.rs:247-258 | An allocation succeeds exactly when the states of blocks have the run asked for, or room to open one up and the records for it; it hands out contiguous blocks of one group that were all FREE, in units that depend on n only, from what is in use before what is whole, and changes nothing else but one FREE cell, claimed for the arena exactly when the unused records do not do; the whole invariant and the counters are kept |
| AllocRoom.ObtainableExactlyWhen | src/alloc.rs:247-398 | In a tree in order the search through records succeeds if and only if the blocks say so: so many free blocks at a multiple of 16 inside a cell in use, or a whole free cell and a record for it, and the same for single blocks and whole cells |
| AllocRoom.SlotBlockExactlyWhen | src/alloc.rs:529-534 | A single block with one record more can be had if and only if the blocks and records say so |
| Allocator.Group.FreeExtent | src/alloc.rs:405-470 | Freeing works exactly on fully allocated ranges that start on their granule, frees exactly the granules touched, and keeps the invariant, no refined cell being left with only FREE children |
| Allocator.Group.FreeAt | src/alloc.rs:413-466 | One granule, rediscovered from the states; errors exactly on what is not allocated or not aligned |
| Allocator.Group.CoarsenKid | src/alloc.rs:447-452 | Releasing an emptied record changes no block, no slot, and no unit of a block still allocated |
| Allocator.Group.CoarsenCell | src/alloc.rs:459-466 | The same for a cell's record |
| Allocator.Group.AllocInode | src/alloc.rs:510-542 | Succeeds exactly when the hinted slot block has a slot to give, or a single block and one record more can be had; it takes the first unused slot of the hinted block, and only without one the first slot of a new block; no other slot changes, and the only block that changes becomes a slot block (besides one claimed cell) |
| Allocator.Group.FreeInode | src/alloc.rs:567-605 | Works exactly on slot blocks, frees the one slot, returns the block to FREE exactly when it was the last one, and leaves the hint where the next allocation will find a slot |
| Allocator.Group.GranuleAt | src/alloc.rs:609-626 | The unit read from the states is the unit allocated; it fails exactly on blocks that are neither allocated nor covered by a record of single blocks |
| AllocTree.RefineKidFacts | src/alloc.rs:228-241 | Refining a child adds one place and one record, matched to each other, and disturbs no other place |
| AllocTree.DropKidFacts | src/alloc.rs:447-452 | Releasing a child's record removes one place and one record, and disturbs no other place |
| AllocOps.RefineKidBlocks | src/alloc.rs:228-241 | Refining a FREE child changes no block; refining a FULL block makes it a slot block |
| AllocSpec.SecondRecord | src/alloc.rs:384-397 | After a first record a second one can be had exactly when two could be had before |
| FreeSpec.GranuleWhole | src/alloc.rs:413-440 | A granule is allocated as a whole and lies inside the group |
| AllocCount.CountsSum | src/alloc.rs:264-269 | Every block is free, reserved or full: the three counts add up to the group's length |
| AllocCount.CountShift | src/alloc.rs:472-477 | Blocks changing state move exactly their number from one count to the other |
| AllocRuns.RunAccounts | src/alloc.rs:247-605 | Over any run of successful allocations, frees of any ranges (parts of extents, or several side by side) and inode operations, the FULL blocks are exactly those handed out and not yet returned, in their units, and the used slots exactly the inodes held: nothing is lost and nothing is handed out twice |
| AllocRuns.ReleaseByHeld | src/alloc.rs:405-440 | Whether a range can be freed, and how far that goes, is a function of what is held and in which units |
| AllocRuns.EmptyExactlyWhen | src/resize.rs:136-156 | The full count that retiring a group reads is zero if and only if nobody holds a block or an inode of the group |
| AllocRuns.HandedOutOnce | src/alloc.rs:247-258 | What an allocation hands out was held by nobody |
| AllocRuns.HeldIsFreeable | src/alloc.rs:405-412 | What was handed out in one piece can be returned in one piece, and frees exactly its rounded size |
| AllocRuns.AllocThenFree | src/alloc.rs:247-477 | Allocating and freeing again restores every block and slot, apart from a cell claimed for the arena |
| AllocPool.TakenFromPool | src/alloc.rs:247-258 | What an allocation hands out comes from the free blocks and leaves them: the contract under which file data is allocated |
| AllocPool.ReturnedToPool | src/alloc.rs:405-470 | What is freed is exactly what the free blocks gain |
| AllocPool.PieceReturnsExactly | src/alloc.rs:405-470 | Freeing a piece of an allocated run returns exactly that piece if and only if it ends where a granule does; otherwise the allocated block behind it goes too |
| FileBlocks.MappedStaysSound | src/alloc.rs:247-258 | A run handed out by the group can be mapped: no block is owned twice, or owned and free |
| FileBlocks.PieceTakesNeighbour | src/alloc.rs:425-434 | The first m blocks of a run in units of sixteen, m no multiple of it, can be released, and the allocated block behind them becomes free |
| FileBlocks.PieceOfTwenty | src/alloc.rs:405-470 | A group in order on which it happens: of twenty blocks seventeen are released and all twenty are free |
| FileBlocks.CutReleases | src/extent.rs:700-711 | Truncation takes the granule at the run's first block: the cut of a run handed out in one piece starts on a granule of the group, can be released, and the release ends inside what was handed out |
| FileBlocks.CutStaysSound | src/extent.rs:700-711 | After that release the file owns nothing that is free, the rounding slack behind the run being nobody's |
| FileBlocks.SlackIsNobodys | src/alloc.rs:247-258 | The rounding slack of a run that is mapped is neither owned nor free |
| FileBlocks.MergedCutReleasesExactlyWhen | src/extent.rs:700-711 | A run that grew by appending another behind it: the cut can be released if and only if it falls into the first part or on a granule of the second; always if the first part's unit is at least the second's |
| FileBlocks.MergedRunRefusesCut | src/extent.rs:700-711 | It is not always so: sixteen single blocks with twenty appended in units of sixteen, both where the allocator prefers to put them, cannot be truncated to twenty, since the release would start inside a granule |
| FileBlocks.ReleasedStaysSound | src/extent.rs:700-711 | A run that a mapping gives up can be released and both stay apart if it ends where a granule does; if not, the block behind it becomes free while it may still be owned |
| FilePool.AllocationIsFair | src/alloc.rs:247-258 | What the group hands out without claiming a cell is what growing a file counts on: from its free blocks, in units on record, with nothing but rounding besides, less than as much again |
| FilePool.ReleaseAsTold | src/alloc.rs:405-412 | The group takes back a range if and only if the units of its allocated blocks say so, which is when cutting a file works |
| AllocAudit.TallyAg | src/fsck.rs:175-262 | The check's walk finds no problem exactly when every reference leads to a used record and no used record beside a referenced one is unreferenced; what it has seen is then every referenced record, and its tallies are the block counts |
| AllocAudit.OwnedIsClean | src/fsck.rs:175-262 | A tree in order passes; its references and used records correspond one to one (no sharing, no leak) |
| AllocAudit.ForestExactlyWhen | src/fsck.rs:175-262 | Records and refined places correspond one to one (no sharing, no leak) if and only if the walk passes, comes by as many records as refined places, and by some record of every table block in use |
| AllocAudit.SharingPasses | src/fsck.rs:187-208 | The converse fails: a tree in which two cells share a record passes as well |
| ExtentTree.SpreadSame | src/extent.rs:325-339 | Spreading a run over a fresh node's children leaves the map as it was for every block, at every level and run length |
| ExtentTree.SpreadBag | src/extent.rs:325-339 | The spread pieces own exactly the blocks of the run |
| ExtentTree.GrowSame | src/extent.rs:343-370 | Wrapping the root's children into a node under a higher root leaves the map as it was |
| Extents.File.Redistribute | src/extent.rs:325-339 | The loop produces exactly those pieces |
| Extents.File.ChildEnsure | src/extent.rs:238-286 | Within a child: the range becomes mapped, earlier mappings stay, new ones are the former holes of the range, and every block taken is owned afterwards; it takes one run for a whole hole when one is to be had, and fails only when not even a single block is, which takes a pool smaller than twice the holes and the nodes above the range; the level-0 error is unreachable |
| Extents.File.KidsEnsure | src/extent.rs:288-321 | The same across a row of children, child by child, at the sum of their costs |
| Extents.File.RootGrow | src/extent.rs:343-370 | Raises the root level and keeps the map; it fails exactly when no single block is to be had; a node made for an empty root is given back, so nothing is lost |
| Extents.File.InsertInChild | src/extent.rs:497-533 | Records a run in a hole and changes no other answer; the level-0 collision is unreachable |
| Extents.File.InsertKids | src/extent.rs:536-570 | The same across child boundaries, splitting the run |
| Extents.File.InsertRun | src/extent.rs:461-494 | The same at the root |
| Extents.File.ToTree | src/extent.rs:443-457 | The tree made from disjoint inline extents maps every file block as they did, at the least level that covers them; it fails only when no single block is to be had |
| Extents.File.ExtentEnsure | src/extent.rs:377-440 | Inline: holes of the range get mapped, extents grow or are added, converting to a tree when there are too many or an allocation fails; what stays inline is sorted; with no extent yet, it succeeds exactly when one run is to be had and leaves that one run |
| Extents.File.MapEnsure | src/extent.rs:184-235 | Afterwards every block of the range is mapped, every earlier mapping is unchanged, the newly mapped blocks are exactly the former holes of the range and come from free space, every block taken is owned or rounding slack, none twice, and the returned runs cover the range as mapped. With no extent yet it succeeds exactly when one run of n is to be had; otherwise it fails only when not even a single block is, which takes a pool smaller than a stated bound in the holes and the nodes above them |
| Extents.File.TreeEnsure | src/extent.rs:206-234 | On a tree: the root is raised until it covers the range and its children are filled, within the stated bound |
| ExtentCost.EnsuredHoles | src/extent.rs:184-235 | What was ensured has no holes left, and the rest of the range as many as before |
| ExtentCost.KnownKept | src/extent.rs:184-235 | If every block a file owns has its unit on record, every block does after growing it |
| Extents.File.CollectRuns | src/extent.rs:574-599 | The runs returned are in order, without gaps, and mapped as they say; a hole is never met |
| Extents.File.FreeChild | src/extent.rs:630-651 | Hands back every block a child owns, nodes included, as often as it is owned, exactly when the units on record let every run go; the count is of data blocks |
| Extents.File.MapFreeAll | src/extent.rs:604-626 | Delete hands back exactly what the mapping owned and leaves it empty; it fails exactly when some run or node cannot be given back |
| Extents.File.TrimRun | src/extent.rs:700-711 | Keeps the asked length rounded up to the unit at the run's first block, hands back exactly the rest, and fails exactly when that block has no unit or the rest does not start on one |
| Extents.File.TrimChild | src/extent.rs:715-775 | Cuts a child, coarsening a node that emptied; what goes is handed back once; it works exactly on the cuts whose pieces can all be given back |
| Extents.File.MapTruncate | src/extent.rs:658-696 | Every file block is mapped afterwards exactly if it lies below the cutoff rounded up, within its run, to the unit at the run's first block; what goes is handed back exactly once, the count is the number of data blocks that went, and it works exactly when every piece given up can be given back, always if no run mixes units |
| ExtentTrim.TrimmedMeans | src/extent.rs:658-711 | What that means: below the cutoff all is as before, nothing new is mapped, what is left beyond it is less than the unit at its run's first block, and with single-block units nothing is |
| ExtentTrim.MapUnitsCuttable | src/extent.rs:658-711 | A file whose runs each lie in one unit can be cut anywhere |
| ExtentCost.DataIsMapped | src/extent.rs:630-775 | Data blocks counted through the tree are the file blocks that are mapped, so the counts returned are of file blocks |
| ExtentTrim.SoundStep | src/extent.rs:184-775 | Every operation that conserves ownership keeps the invariant that no block is owned twice or owned and free |
| ExtentTrim.SoundMeans | src/extent.rs:118-157 | Under that invariant no two file blocks share a block, and none is mapped to a free one |
| ExtentTrim.RowTrimmed | src/extent.rs:684-692 | Cutting each child at its share of the cutoff cuts the file at the cutoff |
| ExtentSpec.SortedFacts | src/extent.rs:434-437 | Sorting the extents keeps what they own, their disjointness and their members |
| ExtentLookup.LookupSound | src/extent.rs:118-177 | Every block inside a returned Run or Hole length has the answer a lookup of its own would give, and the length is never zero |
| FileReader.ReadInodeData | src/fs.rs:275-312 | The run-skipping read returns byte for byte what reading each byte through the block map would, for every offset and length, saturating arithmetic included |
| Sizes.TargetsFit | src/journal.rs:53-55 | The limit on the blocks of a transaction is what fits a descriptor block |
| Sizes.RecordsFit | src/alloc.rs:23-29 | Records in a table block: as many as fit behind its header |
| Sizes.InlineExtentsFit | src/fmt.rs:554-555 | Inline extents: as many as fit the inode's payload |
| Sizes.TableFits | src/dir.rs:21-24 | The largest depth is the largest whose table fits the header block |
| ResizeLaws.ResolveIsInjective | src/fmt.rs:397-409 | Two block addresses never share a byte of the device |
| ResizeLaws.ResolveIsTotal | src/fmt.rs:397-409 | Every block of a present group resolves, to a place inside the device |
| ResizeLaws.MovedContents | src/resize.rs:108-130 | After the copy and the map update every block address of every group reads as before |
| ResizeLaws.AddedContents | src/resize.rs:53-64 | Writing into an unmapped region and mapping it as a new group disturbs no other address |
| Resize.Disk.AddAg | src/resize.rs:12-73 | Refuses exactly unaligned, too small (after truncation to 32 bits) and overlapping regions, and groups whose entry the map block has no room for, each with its own error; otherwise maps a new group, segments staying disjoint and all other contents unchanged |
| Resize.Disk.WriteMap | src/fmt.rs:330-355 | The loop over entries fits the map block exactly when all their bytes do |
| Resize.Disk.Grow | src/resize.rs:76-85 | Fails only for no growth, a group too small, or a full map, never for alignment or overlap: the region behind the last segment is free |
| Resize.Disk.OverlapsExcluding | src/resize.rs:213-223 | True exactly when some segment of another group is met |
| Resize.Disk.FindGap | src/resize.rs:226-248 | The lowest unmapped place of the size below the limit, found whenever there is one |
| Resize.Disk.MappedEnd | src/resize.rs:198-206 | The end of the last segment |
| Resize.Disk.Relocate | src/resize.rs:89-133 | Moves a group as a whole, segments staying disjoint: map and device afterwards, and every address reads as before whenever no chunk is overwritten before it is read; each error exactly by its cause |
| RelocateCopy.MoveKeepsExactlyWhen | src/resize.rs:108-130 | Whatever the device holds: after the chunked copy to a region that only the group's own segments may reach into, every address of every group reads as before if and only if no chunk's source is overwritten by an earlier chunk |
| RelocateCopy.OnePieceExactlyWhen | src/resize.rs:112-124 | For a group in one piece that means: it moves down, or clear of itself, or is no longer than one chunk; moving up into itself loses contents, and the overlap test lets it through |
| RelocateCopy.ClearIsReadFirst | src/resize.rs:176-190 | A destination clear of the group's own segments, as shrinking picks it, is always safe |
| Resize.Disk.CopySegment | src/resize.rs:112-124 | The loop performs exactly the chunk moves of the segment, forwards, on the device |
| Resize.Disk.Retire | src/resize.rs:136-156 | Refuses exactly the first group, missing groups and groups in use, each with its own error; no other address changes |
| Resize.Disk.Shrink | src/resize.rs:160-196 | Ends; on success no segment lies beyond the new size, the groups gone are exactly the empty ones that stuck out, groups that did not stick out are where they were, and every address of every other group reads as before; it fails only if, in the map reached, the first group that sticks out can neither go nor be placed lower |
| Resize.EmptyNeverStuck | src/resize.rs:160-196 | If every group that sticks out is empty and none is the first, shrinking does not fail |
| Resize.Disk.ShrinkStep | src/resize.rs:162-190 | Each round takes the first group that sticks out, retires it if it is empty and otherwise moves it to the lowest place below the new size that fits, leaving fewer groups beyond |
| Namespace.Volume.constructor | src/mkfs.rs:254-306 | A new volume, with or without the immutable kernel.bin, satisfies the link-count invariant, is connected, and has what is stored of its root show its entries |
| Namespace.Volume.Mknod | src/fs.rs:510-547 | A new inode under a new name of a directory: the whole table afterwards, link counts and stored directories kept in step; a request is refused exactly for a name not allowed or taken, a parent missing or no directory, or a link target too long, each with its own error; the layers below refuse only for want of a slot, a crowded directory, full blocks or a full journal |
| Namespace.Volume.LinkAt | src/fs.rs:550-570 | One more name for a file, never for a directory, and only in a directory; refused exactly for a name not allowed or taken, a parent missing or no directory, or a file missing or a directory |
| Namespace.Volume.RemoveCommon | src/fs.rs:580-614 | Succeeds exactly if the name is there, of the kind asked for, not immutable, and empty if a directory, the directory's header has room for what comes back, and the transaction fits; otherwise nothing changes and the error names the cause; the inode goes with its last name; link counts never saturate |
| Namespace.Volume.RenameAt | src/fs.rs:616-688 | The target takes over what the source named, replacing per rename() of POSIX.1-2017 (like by like, empty directories only, nothing for two names of one inode); the whole table afterwards, invariant and stored directories kept; each refusal by its cause, those of the layers below included |
| NamespaceLaws.MadeGood | src/fs.rs:510-547 | Creating keeps: a directory's links are 2 plus its subdirectories, a file's the number of its names, no entry names a freed inode |
| NamespaceLaws.AddNameGood | src/fs.rs:550-570 | So does adding a name |
| NamespaceLaws.RemovedGood | src/fs.rs:580-614 | So does removing one, with freeing |
| NamespaceLaws.RenamedGood | src/fs.rs:616-688 | So does renaming, also of a directory into itself |
| NamespaceTree.RenameConnected | src/fs.rs:616-688 | A rename keeps every directory reachable from the root if and only if it does not move a directory to a place inside itself, which this function does not test |
| NamespaceTree.RemovedConnected | src/fs.rs:580-614 | Removing keeps every directory reachable |
| NamespaceTree.MadeConnected | src/fs.rs:510-547 | So does creating |
| NamespaceTree.LinkConnected | src/fs.rs:550-570 | So does linking |
| RenamePath.RenameByPathConnected | src/fs.rs:616-688 | However the paths are written: a rename keeps every directory reachable if and only if it does not move a directory to a path whose components continue its own |
| RenamePath.GuardedRenameConnected | src/fs.rs:757-766 | What the textual guard lets through keeps every directory reachable, or moves a directory to a path that continues its own; the latter takes a path with dots or doubled slashes |
| RenamePath.RefusedExactly | src/fs.rs:757-763 | The guard refuses only places equal to or below the source; one that it misses is not plainly written |
| RenamePath.RefusedIsBelow | src/fs.rs:757-763 | What it refuses is such a place, however the paths are written |
| RenamePath.DotPassesGuard | src/fs.rs:757-763 | With a dot component a place below the source gets past it |
| RenamePath.DotDisconnects | src/fs.rs:757-766 | A volume and two paths past the guard with which the rename cuts a directory off the root |

## Left out

- Command line tools, the FUSE mount, error texts and their mapping to errno: plumbing.
- CRC32C, SipHash, UUIDs, clocks and UTF-16 conversion: library calls, abstracted as above.
- Byte layouts of superblock, AG header, inode, AG map, buckets, extent records and cell states: the model has the fields; table blocks are told from others by being keys of a map.
- Kernel region update, setattr, timestamps, permissions and in-place data writes: no property that spans operations.
- Superblock totals of free, reserved and full blocks: advisory; the per-group counters are proved.
- State after an operation that fails: the caller drops the transaction. Where a failed allocation is followed by another attempt in the same transaction, only failures that leave the allocator untouched are covered.
- Allocator.Group.AllocExtent: requires n >= 1, as every caller asks for at least a block; a request for none would refine a cell and leave it empty.
- Allocator.Group.FreeExtent: the range has to lie inside the group; beyond it the program would read past the cell table.
- Freeing part of a 16- or 256-block granule whose run was split between children of an extent tree: the allocator releases whole granules (`PieceReturnsExactly` says when that is more than asked), the extent side proves that each block is handed over once, if it is not refused.
- Stale data in an unused arena block that looks like a table block: unused records are taken to be unused.
- Directory.Directory.DirInsert: allocation failure inside the directory's own file is an answer of the names layer (`RoomForEntry`, met whenever the blocks do), not part of this method; entries carry a non-zero inode and a name of at most 255 units, as callers check.
- Directory.Directory.DirList: the order of the listing.
- Extents.File.MapEnsure: the fresh flag of the returned runs (it is taken from a run's first block only), and 32-bit widths: every run lies in one group, whose length is a 32-bit number.
- Extents.File.Alloc: stands for the allocator: which runs it gives is a condition on the pool alone, where the group's records and arena decide as well (`ObtainableExactlyWhen`). The bounds under `fair` leave cells claimed for the arena, and single blocks refused for want of a record, aside.
- Extents.File.GiveBack: stands for the allocator: it takes back what starts on a unit and is allocated, and exactly that; where the group frees more than asked, `PieceReturnsExactly` says so. Units of blocks given back stay listed, as nothing is given back twice.
- Extents.File.ExtentEnsure: how extents are joined beyond growing the one that a new run continues, so at which write exactly a file stops being inline.
- Extent node blocks are values below their parent; that no node is shared is part of the ownership that is conserved.
- Resize.Disk.AddAg: the region has to lie inside the device, as growing arranges; header and table bytes are the allocator's.
- Resize.Disk.FindGap: a request for no bytes at all.
- Crash states of the AG map copies, and growing the AG map beyond its place.
- Recovery.RepeatedCrashes: leaves superblock copies whole; chains in which they may be torn are the subject of TornSupers.TornChainsExactlyWhen.
- Leftovers.CommitIsSafeExactlyWhen: commit records numbered above the next commit; none is there once an open has recorded what it replayed.
- The superblock that replay writes is taken to be durable before the next commit: nothing syncs it before that commit's first sync.
- AllocAudit.TallyAg: the test of what the inodes of a slot block hold; and a reference to an unused record is counted as a problem without reading on through it.
- Resize.Disk.Retire: the full count is a field of the disk here, standing for the one of the allocator's group; AllocRuns.EmptyExactlyWhen says what that one being zero means.
- Namespace.Volume.RemoveCommon: whether the transaction fits the journal is an answer fixed for the volume (`below`); JournalVolume.Volume.Commit says when it does. The same holds for the other operations on names, for free blocks, and for inode slots below a limit.
- Link counts are unbounded; the program keeps 32 bits.
