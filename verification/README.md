# APFS driver model

This project models the read-write APFS driver for Linux (its b-trees, extents, object
maps, space manager, checkpoints, and the self-contained algorithms that it carries) and
proves that the code keeps the structures of the filesystem in order. The kernel is
abstracted away: a disk is a map of blocks, every operation that the driver runs under its
locks is one atomic step, and the block numbers that an allocation would return are
parameters where the allocator itself is not the subject. Code that changes things in
place is modelled by classes and methods with loops, each of them proved against a
specification on values; the properties of whole runs are lemmas about those values.

`dafny verify dfyconfig.toml` checks everything.

## The parts

- **Physical extents** (`PhysExtents`). Signed reference counts, kept in 32 bits, across
  records of the live tree and updates to those of older snapshots. What a range of blocks
  gains or loses is stated block by block, so it does not depend on how the range straddles
  the records.
- **Data streams** (`Extents`, `Dstreams`, `DstreamRuns`). The list of logical extents with
  one cached extent in front of it stands for a plain block map. Every operation is stated
  as what it does to that map, to the references of every block and to the list of freed
  blocks, and so is every run: a block that the live tree owns is freed once or still owned.
- **Object map** (`Omaps`). A multi-version map with a direct-mapped cache.
- **Space manager** (`Spaceman`, `SpaceCopies`, `SpaceManagers`, `SpaceRuns`,
  `IpBitmaps`). One invariant says that every block is owned exactly once, by the
  filesystem, by the space manager itself or by a free queue, that the counts are exact,
  and that nothing the last checkpoint uses can be reused or overwritten. All operations
  and all runs keep it.
- **Checkpoints** (`Checkpoints`, `Crashes`). The rings of a checkpoint with their
  wraparound, and the order of the writes of a commit. A crash may leave any subset of the
  pending writes on disk.
- **Transactions** (`Transactions`, `TransactionSteps`, `TransactionRuns`, `Filesystems`).
  All of that together: the space manager, the locations of its bitmaps, the objects with
  their transaction ids, the checkpoint rings and the disk. Objects are copied on write by
  the test of their transaction id. Every write that any operation makes is shown to leave
  the last checkpoint alone, so that after every run and every crash the mount finds what
  was last committed.
- **B-trees** (`Btree`, `BtreeOps`, `BtreeQueries`, `BtreeRoom`). The whole tree with splits, height
  increases, removal of empty nodes, propagation of first keys and the retry loops. The
  termination of those is by a potential that every split decreases.
- **B-tree nodes** (`NodeArea`, `NodeList`, `BtreeNode`). The bytes of one block: both
  areas with their free lists kept inside the free segments, the gap between them, and
  defragmentation. The account of the bytes is a count of owners for each byte.
- **Names** (`Unicode`, `Normalize`, `Unicursor`). Lazy normalization as a stable sort, for
  the names that it can cope with.
- **Compression** (`Zbitmap`, `ZbitmapDecoder`, `ZbitmapEncoder`, `Fse`, `FseCoding`). The
  driver only decodes. Here there is an encoder for each of the two formats, and whatever
  these encode is decoded again.
- **Checksums** (`Fletcher`) and **extended fields** (`Xfield`).
- Small shared modules: `Records`, `Bitmaps`, `Arith`, `Bytes`.

## Where the code does not do what it seems to promise

The model follows the code in all of these. For each there is a concrete case, named
first, and a proof of exactly when the property does hold.

- With case folding, some characters have a decomposition with another starter after its
  first character: U+1F80 becomes U+03B1 U+0313 U+03B9. The length of a substring then falls
  inside of that character, and the cursor, which only looks for it between characters,
  walks past the end of the name (unicode.c:276-346). Such a name can't be compared with
  itself, and has no hash (`Unicursor.GreekName`; `Unicursor.SearchEnds`,
  `Normalize.AllOrdered`, `Unicursor.EqualNames`).
- A cached extent that is a hole can grow by a data block whose number happens to equal
  the length of the hole (extents.c:1419); the block is then lost to the file
  (`Dstreams.SparseAppend`; `Dstreams.Dstream.NewBlock`, `DstreamRuns.Run`).
- The check for extents that belong to a snapshot reports "no" when the live reference
  tree has nothing at or below the range (extents.c:1291), so growing such an extent
  charges a block of the snapshot to the live tree (`Dstreams.AppendAfterSnapshot`;
  `PhysExtents.NotInSnap`, `Dstreams.Dstream.Write`).
- Deleting an object that was not copied since the last snapshot also deletes it from the
  snapshot (`Omaps.DeleteBreaksSnapshot`; `Omaps.DeleteIsolates`).
- An object that is deleted while a snapshot has an older version of it is mapped to that
  version again, unless it is gone (`Omaps.DeletedShows`).
- A lookup of an object that is not mapped returns the block of another one, if any key is
  below it (`Omaps.LookupOther`; `Omaps.Omap.Lookup`). With write access it takes over the
  record of that object, and a deletion removes it (`Omaps.WriteSteals`,
  `Omaps.DeleteSteals`).
- The limit on the data blocks of a checkpoint is tested for equality (transaction.c:594),
  so an object of two blocks can jump over it. The checkpoint may then go over itself, or
  over the last one (`Checkpoints.JumpExample`, `Checkpoints.JumpOverlap`;
  `Checkpoints.QuarterLimit`, `Checkpoints.OverlapIff`).
- The size of the data of the extended fields is kept in 16 bits and wraps around: a
  collection of 65548 bytes is said to take 12 (`Xfield.WrapExample`;
  `Xfield.InsertXfield`).
- The deltas of the FSE tables are kept in 16 bits and are cut for large tables
  (`Fse.DeltaWraps`; `Fse.DeltasFit`). The tables of LZFSE have 1024 states at most.
- Asking for the length of an LZBITMAP stream with an empty chunk never ends
  (`Zbitmap.StuckExample`; `Zbitmap.LengthEnds`). The only caller (compress.c:277) always
  has a destination.
- A saturated reference count changes the kind of its record when taken and put back
  (`PhysExtents.SaturatedOwner`; `PhysExtents.AdjustBack`).
- A node whose table of contents is neither of the least size nor made of whole increments
  may need a larger table when it is defragmented (`BtreeNode.OddTable`;
  `BtreeNode.NodeBlock.TableIff`).

## Model

| member | source | states |
|---|---|---|
| PhysExtents.SplitKeepsRefs | extents.c:1029-1066 | splitting a physical extent record at any inner block changes no block's references |
| PhysExtents.RecountedAdjusts | extents.c:951-1005 | counting one record up or down (with 32-bit wraparound, and removal at zero) changes exactly its blocks by one, and frees them exactly when it is a NEW record on its last reference |
| PhysExtents.CountInRange | extents.c:951-976 | in a sorted tree a count fits in 32 bits, and is zero exactly for blocks with no record |
| PhysExtents.AdjustBack | extents.c:951-1005 | for one block, a take undone by a put restores the count and never frees; it restores the kind of record too exactly when a NEW count was not saturated |
| PhysExtents.SaturatedOwner | extents.c:951-1005 | a block with 2^32 - 1 references that is taken and put back has an update record instead of its own |
| PhysExtents.RunCounts | extents.c:1911-2178 | after any run of takes and puts on any ranges, every block's count is the first one plus its takes minus its puts, modulo 2^32 |
| PhysExtents.TakeThenPut | extents.c:1911-2178 | taking and then putting any range restores every count and frees nothing; exact condition for the records to mean the same |
| PhysExtents.PutsAre | extents.c:951-1005 | after any number of puts the count is smaller by that many, modulo 2^32, and the live tree owns the block exactly if it did and had more references |
| PhysExtents.PutsFreeMore | extents.c:951-1005 | a block is freed once over any number of puts, by the one that drops the last reference of an owned block, and never again |
| PhysExtents.GrownRecord | extents.c:762-773 | growing a NEW record with one reference up to the next one gives exactly the new blocks one reference |
| PhysExtents.InsertedExtends | extents.c:775-786 | a new record in a gap gives exactly its own blocks one reference |
| PhysExtents.NotInSnap | extents.c:1253-1321 | the answer "not in a snapshot" means that the live tree owns the whole range if and only if the tree has some record at or below it |
| PhysExtents.InSnapIff | extents.c:1253-1321 | the answer is "yes" if and only if there are snapshots, some record at or below the range, and no single record that owns all of it |
| PhysExtents.WithFresh | extents.c:798-892 | an extent without records becomes owned with one reference, and nothing else changes |
| PhysExtents.WithKept | extents.c:798-892 | inserting any extent gives up no block that the live tree owns |
| PhysExtents.ExtentRefTree.constructor | snapshot.c:214-229 | the live tree after a snapshot has no records and has freed nothing |
| PhysExtents.ExtentRefTree.SplitPhysExt | extents.c:1029-1066 | two records that say together what one did, in order |
| PhysExtents.ExtentRefTree.AdjustPhysExtent | extents.c:951-1005 | the put or take of one whole record is the abstract per-block step |
| PhysExtents.ExtentRefTree.CreateUpdatePext | extents.c:1076-1087 | an update record of count +1 or -1 in a gap is the abstract per-block step for blocks that have no record |
| PhysExtents.ExtentRefTree.AdjustFound | extents.c:1911-2154 | the cases that crop nothing do the per-block step on the last part of the range and say where it starts |
| PhysExtents.ExtentRefTree.AdjustSingleExtent | extents.c:1911-2154 | one call does the per-block step on a nonempty last part of the range, however it straddles records; the retry happens at most once and the "recursion cropping" error is never returned |
| PhysExtents.ExtentRefTree.AdjustRange | extents.c:2024-2178 | put or take of a range changes every block of it by exactly one and no other, and frees exactly the blocks whose NEW record reaches zero; it ends and cannot fail |
| PhysExtents.ExtentRefTree.InsertPhysExtent | extents.c:798-892 | the blocks of an extent from some point on get one reference each and no other count changes; they are exactly the new ones if and only if the block before them has a record in the tree; nothing is freed, and the records are those of `WithFresh` and `WithKept` |
| PhysExtents.ExtentRefTree.InsertNewPhysExtent | extents.c:775-786 | the new record keeps the tree sorted and references exactly its blocks |
| Extents.FloorCovers | extents.c:100-177 | in a list of extents with no gaps, the record that the query finds covers the block, and maps it as the plain block map does |
| Extents.FlatNewTail | extents.c:415-521 | meeting the last extent with a new one cuts the block map there and appends the new blocks |
| Extents.NewTailContiguous | extents.c:415-521 | and leaves no gap or overlap |
| Extents.OverwritingSorted | extents.c:586-739 | the records stay sorted halfway through the overwrite of a middle block |
| Extents.FlatOverwritten | extents.c:586-739 | once done, exactly that block of the map changed, and there are no gaps |
| Dstreams.Dstream.PutBlocks | extents.c:342-385 | each block of the extent loses one reference, and is freed exactly when that was the last one of a block that the live tree owns, or the sparse count loses the hole; no other block is freed |
| Dstreams.Dstream.ShrinkExtentTail | extents.c:342-385 | the cut extent keeps its first blocks, and exactly the rest are put, and freed if that is due |
| Dstreams.Dstream.ShrinkExtentHead | extents.c:292-331 | the cut extent keeps its last blocks, and exactly the first ones are put, and freed if that is due |
| Dstreams.Dstream.SplitExtent | extents.c:530-576 | two extents in place of one, with the right physical addresses |
| Dstreams.Dstream.MeetTail | extents.c:415-521 | all cases of a new tail against the last extent: grown, cut, replaced or after it |
| Dstreams.Dstream.UpdateTailExtent | extents.c:415-521 | the block map is cut at the new extent and continues with it; exactly the blocks that were lost are put, and freed if that was their last reference |
| Dstreams.Dstream.MidRun | extents.c:586-739 | one pass of the overwrite of a middle block, in any position within its extent |
| Dstreams.Dstream.MidRuns | extents.c:586-739 | at most two passes do the whole overwrite, and put exactly the old block, which may free it |
| Dstreams.Dstream.UpdateMidExtent | extents.c:586-739 | exactly one block of the map changes, its old block loses one reference and is freed exactly if that was its last, no other block is freed, and the catalog stays sorted, contiguous and with the right sparse count |
| Dstreams.Dstream.UpdateExtent | extents.c:749-760 | the catalog becomes what the cached extent and the catalog stood for together |
| Dstreams.Dstream.UpdateDirtyExtent | extents.c:749-760 | the same, without touching the references of the dirty extent itself |
| Dstreams.Dstream.WriteBack | extents.c:1107-1137 | the catalog and the reference tree change by the same blocks if and only if the clean part of the cached extent has records in the live tree; exactly the blocks that it pushes out of the catalog are put, and freed if that was their last reference |
| Dstreams.Dstream.FlushExtentCache | extents.c:1107-1137 | a flush never changes the block map; references are conserved if and only if the cached extent was tracked; the records and the freed blocks are exactly those of the blocks pushed out |
| Dstreams.Dstream.CreateHole | extents.c:1148-1191 | a hole appends zeros to the block map, and nothing else |
| Dstreams.Dstream.GrowCache | extents.c:1411-1425 | a cached extent that grows gives the plain block map if and only if it is not a hole |
| Dstreams.Dstream.MakeRoom | extents.c:1354-1451 | the flush and the hole before a block past the end, as appended holes |
| Dstreams.Dstream.ReplaceCache | extents.c:1354-1451 | a new dirty extent of one block gives the plain block map |
| Dstreams.Dstream.NewBlock | extents.c:1354-1451 | any new block leaves the block map as a plain write would, if and only if it does not grow a cached hole; exact condition for the conservation of references; the records and the freed blocks are those of the flush, or unchanged if there is none |
| Dstreams.Dstream.ExtentRead | extents.c:100-177 | the extent that is found, in the cache or in the catalog, maps the block as the plain block map does |
| Dstreams.Dstream.LogicToPhysBno | extents.c:187-207 | a lookup gives the block of the plain block map, and changes nothing |
| Dstreams.Dstream.RemoveLastExtent | extents.c:1487-1566 | dropping the last extent cuts the map at its start, and puts and frees its blocks |
| Dstreams.Dstream.CutLastExtent | extents.c:1487-1566 | cutting the last extent cuts the map there, and puts and frees the blocks beyond |
| Dstreams.Dstream.ShrinkLastExtent | extents.c:1487-1566 | one step of a shrink never cuts too much, and either is the last one or leaves fewer extents |
| Dstreams.Dstream.ShrinkDstream | extents.c:1575-1584 | the loop ends with a map of exactly the new size; every kept block is mapped as before, every dropped one loses one reference for each use and is freed exactly once if that was all the live tree had, and no other block is freed |
| Dstreams.Dstream.ZeroDstreamTail | extents.c:1199-1229 | the last block is rewritten only if it is not aligned, only that block of the map changes, and exactly the extent that was cached before is flushed |
| Dstreams.Dstream.Write | extents.c:1354-1451 | a write to one block with its tail rewrite and size update (inode.c:654): exact conditions for the block map and for the references, and exactly which blocks are freed |
| Dstreams.Dstream.GrowDstream | extents.c:1593-1623 | growth is represented as holes and conserves references; only the flush frees blocks |
| Dstreams.Dstream.Truncate | extents.c:1593-1623 | truncation to any size: the map is cut, or grows by holes, to exactly the rounded-up size; references conserved if and only if the cached extent was tracked; every block beyond the cut is put after the flush, and freed exactly once if that was all the live tree had |
| Dstreams.Dstream.CloneExtents | extents.c:2191-2238 | the clone has the same extents, every block gains one reference per use, and none is freed |
| Dstreams.SparseAppend | extents.c:1411-1425 | for every length, a file that is one hole loses the block with that number when it is appended |
| Dstreams.SnapshotFile | extents.c:1253-1321 | the state of a one-block file right after a snapshot |
| Dstreams.AppendAfterSnapshot | extents.c:1253-1321 | appending to it charges a block of the snapshot to the live tree |
| DstreamRuns.Step | extents.c:1354-1623 | one write or truncation does to the block map what it does to a plain array, if and only if it does not extend a cached hole; its effect on the records and on the freed blocks is that of the operation, even then |
| DstreamRuns.Run | extents.c:1354-1623 | after any run of writes and truncations the block map is that of the plain array; the first write that extends a cached hole always goes wrong, and nothing else does; the references and the freed blocks are accounted for at each step |
| DstreamRuns.StepBalance | extents.c:1354-1623 | a step gives up a block of the live tree exactly when it frees it, once |
| DstreamRuns.OwnedOrFreed | extents.c:1354-1623 | over any run, a block that the live tree owns is either still owned or has been freed exactly once, and one that it does not own is not freed, unless a flush makes the tree its owner in between |
| DstreamRuns.WrittenStays | extents.c:1354-1623 | over any run, a block that was written stays in its place until it is overwritten, cut off, or rewritten as the last one |
| DstreamRuns.HoleStays | extents.c:1354-1623 | over any run, nothing turns a hole into data except for a write to it |
| Omaps.LookupIsNewest | btree.c:184-254 | the query finds the newest version of an object that is not above the transaction, when there is one, and none exactly when there is none |
| Omaps.WriteIsolates | btree.c:184-254 | a lookup for write gives the object a block that no snapshot maps; snapshots and other objects see no change |
| Omaps.CreateIsolates | btree.c:294-334 | a new object is visible at once, and to no snapshot |
| Omaps.DeleteIsolates | btree.c:343-377 | a deletion is invisible to the snapshots if and only if the object was already copied since the last one |
| Omaps.DeletedFromSnapshot | btree.c:343-377 | otherwise the last snapshot itself loses the object |
| Omaps.LaterLookup | btree.c:184-254 | nothing is newer than the current transaction |
| Omaps.RunIsolates | btree.c:184-377 | over every run of writes, creations, isolated deletions, snapshots and transactions, the lookup of any object at any snapshot from before the run never changes |
| Omaps.SnapshotStays | snapshot.c:392-481 | a snapshot taken at any point of a run is recorded, and every object is mapped there to the end as it was when the snapshot was taken |
| Omaps.RunTidy | btree.c:184-377 | over every run, no object ever has two versions that are both newer than the last snapshot |
| Omaps.StepPlain | btree.c:184-377 | to the current transaction the map is a plain one: each step changes its own object, and snapshots and commits change nothing but go on to a later transaction |
| Omaps.WriteBlockIs | btree.c:184-254 | a lookup for write never hands out a block of an older transaction, and hands out the same one until the next |
| Omaps.CreatedInPlace | btree.c:294-334 | a new object belongs to the current transaction, and is not copied again in it |
| Omaps.DeletedShows | btree.c:343-377 | a deleted object is mapped as it was before its last version |
| Omaps.DeleteBreaksSnapshot | btree.c:343-377 | a concrete map and deletion that break a snapshot |
| Omaps.WriteSteals | btree.c:184-254 | a lookup for write of an object that is not mapped maps it; the object whose record was found is still mapped as before if and only if a snapshot has that record |
| Omaps.DeleteSteals | btree.c:343-377 | deleting an object that is not mapped changes what another one is mapped to |
| Omaps.LookupOther | btree.c:184-269 | a map with one object, which gives its block for another one |
| Omaps.Omap.constructor | btree.c:70-95 | an empty cache is consistent with any map |
| Omaps.Omap.CacheSave | btree.c:103-119 | exactly the slot of the object is replaced |
| Omaps.Omap.Lookup | btree.c:184-269 | the answer, from the cache or the tree, is that of the tree if and only if the object is mapped or no key is below it; a hit always equals the tree's answer; otherwise it is the block of the record found; whatever is found is in the cache from then on, and the other slots are as before |
| Omaps.Omap.LookupForWrite | btree.c:184-269 | it fails exactly when no key is at or below the object; the record that is found changes as the copy-on-write step says, and the new block is in the cache, which stays right if it was the object's own |
| Omaps.Omap.CreateRec | btree.c:294-334 | as the model's creation step; exactly the slot of the object changes in the cache, which stays right |
| Omaps.Omap.DeleteRec | btree.c:343-377 | it fails exactly when no key is at or below the object; the record that is found is removed, and so is the cached one of the object; the cache stays right if it was the object's own |
| Omaps.Omap.TakeSnapshot | snapshot.c:392-481 | the current transaction is recorded as the newest snapshot, a later one begins, no record changes, and the cache stays right |
| Omaps.Omap.NextTransaction | transaction.c:366-442 | a later transaction begins, and the records, the snapshots and the cache stay as they are |
| Spaceman.QueueInsertCounts | spaceman.c:1045-1082 | a freed range counts once for each of its blocks, whether it is cached, merged with the cached range or queued |
| Spaceman.QueueInsertInOrder | spaceman.c:926-1082 | the queues stay in the order of their transactions, and old records never mention a protected block |
| Spaceman.PoolBlockFree | spaceman.c:827-851 | the block that is found in the internal pool has no owner |
| Spaceman.MoveBitmapKeeps | spaceman.c:1092-1247 | copying a bitmap block to a new place keeps every bit, all ownership and everything that the last checkpoint needs |
| Spaceman.MoveCibKeeps | spaceman.c:1092-1247 | so does copying a chunk-info block |
| Spaceman.PrepareKeeps | spaceman.c:1092-1247 | both copies together, before a bit changes |
| Spaceman.SetBitAllocates | spaceman.c:861-901 | the bit found belongs to a block with no owner; setting it keeps the counts exact and gives the block to the filesystem |
| Spaceman.SetBitFrees | spaceman.c:909-915 | clearing the bit of a queued block keeps the counts exact |
| Spaceman.IpMarkFreeFrees | spaceman.c:491-503 | the same for a block of the internal pool |
| Spaceman.DequeueKeeps | spaceman.c:519-566 | a record whose blocks are all free can leave its queue |
| Spaceman.QueueInsertKeeps | spaceman.c:1045-1082 | freed blocks stop being live but stay unavailable |
| Spaceman.FlushCacheKeeps | transaction.c:689-701 | the cached range becomes a record, and no block changes hands |
| Spaceman.CommitProtects | transaction.c:672-803 | in the next transaction, everything that the commit uses is protected |
| Spaceman.AllocKeeps | spaceman.c:1092-1247 | an allocation returns a block that was neither live nor used by the last checkpoint, and keeps the whole invariant |
| Spaceman.AllocUsed | spaceman.c:1092-1247 | an allocation never clears a bit |
| Spaceman.FreeKeeps | spaceman.c:1387-1436 | a queued block of an older transaction is marked in its chunk, and freeing it keeps the whole invariant |
| Spaceman.FreePool | spaceman.c:1092-1247 | freeing a block only queues blocks of the pool, so that the main queue is stable during its flush |
| Spaceman.SmallContainerInv | spaceman.c:729-812 | a small container meets the invariant of the space manager |
| SpaceCopies.CurrentSpared | spaceman.c:1092-1247 | the bitmaps and chunk-info blocks of the current transaction are in the pool and never those of the last checkpoint |
| SpaceCopies.SetCopies | spaceman.c:1092-1247 | setting or clearing a bit only changes blocks that the transaction has copied |
| SpaceCopies.AllocCopies | spaceman.c:1092-1265 | so does an allocation |
| SpaceCopies.OwnCopied | spaceman.c:1092-1247 | between two moments of a transaction, the space manager owns what it did before, or copies, and copies stay where they are |
| SpaceManagers.SpaceManager.FreeQueueInsertNocache | spaceman.c:926-1033 | the record goes in its place in the queue that the block belongs to |
| SpaceManagers.SpaceManager.FreeQueueInsert | spaceman.c:1045-1082 | the range is merged with the cached one on either side, or takes its place |
| Spaceman.FreedTogether | spaceman.c:1045-1082 | blocks that are freed one at a time, in any order that makes each the neighbour of those before, end up as one cached range without a change to the queues |
| SpaceManagers.SpaceManager.IpFindFree | spaceman.c:827-851 | the first free block of the pool |
| SpaceManagers.SpaceManager.OwnBitmap | spaceman.c:1092-1247 | the bitmap block is copied once per transaction, and it fails exactly when the pool is empty |
| SpaceManagers.SpaceManager.OwnCib | spaceman.c:1092-1247 | so is the chunk-info block |
| SpaceManagers.SpaceManager.Prepare | spaceman.c:1092-1247 | it fails exactly when the pool has fewer free blocks than copies are needed |
| SpaceManagers.SpaceManager.ChunkAllocateBlock | spaceman.c:1092-1265 | no space exactly when the chunk has no free blocks, and nothing changes then |
| SpaceManagers.SpaceManager.MainFree | spaceman.c:1375-1436 | success exactly when the block was in use and the pool is large enough |
| SpaceManagers.SpaceManager.CibAllocateBlock | spaceman.c:1278-1314 | the first chunk with space, in either direction |
| SpaceManagers.SpaceManager.AllocateBlock | spaceman.c:1325-1366 | first fit; no space exactly when the free count is zero; the block was not live, not used by the last checkpoint and not freed in this transaction; the invariant is kept |
| SpaceManagers.SpaceManager.FlushBlock | spaceman.c:519-566 | one queued block becomes free; only copies change |
| SpaceManagers.SpaceManager.FlushFqRec | spaceman.c:519-566 | exactly the last record of the transaction goes, with all of its blocks |
| SpaceManagers.SpaceManager.FlushFreeQueue | spaceman.c:597-658 | every record of an older transaction goes, and the loop ends |
| SpaceManagers.SpaceManager.StartTransaction | transaction.c:366-442 | afterwards nothing of the last commit can be touched, and outside of the pool the bits are exactly the live blocks; only copies have changed, even if it fails |
| SpaceManagers.SpaceManager.CommitQueues | transaction.c:672-701 | no block changes hands |
| SpaceManagers.MainExact | spaceman.c:597-658 | with an empty main queue, the bits outside of the pool are exactly the live blocks |
| SpaceManagers.AllocateFrom | spaceman.c:1278-1366 | the block chosen is the first fit in the order of the search, and the invariant is kept |
| SpaceRuns.FreeBlock | spaceman.c:1045-1082 | a freed block keeps its bit |
| SpaceRuns.NextTransaction | transaction.c:366-442 | commit and begin: the new protected set holds all that was live |
| SpaceRuns.Step | spaceman.c:1045-1436 | any operation follows the abstract history of live, protected and freed blocks |
| SpaceRuns.Run | spaceman.c:519-1436 | any run of allocations, frees and commits follows that history, with exact counts and all bits set at every moment of it; it stops early only if the pool has run out, and then all of this holds up to there |
| SpaceRuns.ProtectedUntilCommit | spaceman.c:519-658 | protected and freed blocks stay so until the next commit |
| SpaceRuns.NeverReused | spaceman.c:519-1436 | over any history, no block is handed out while live, while the last checkpoint needs it, or in the transaction that freed it |
| IpBitmaps.Ring.Free | spaceman.c:191-220 | the location goes last in the queue kept in the linked array |
| IpBitmaps.Ring.Allocate | spaceman.c:144-182 | the first location comes out; it fails exactly when it is the only one |
| IpBitmaps.Ring.Reallocate | spaceman.c:234-254 | it never fails: the first free location is taken and the old one goes last; used and free locations stay a partition |
| IpBitmaps.Ring.WriteIpBitmaps | spaceman.c:264-351 | a commit reuses none of the locations of the previous one if and only if it writes no more bitmaps than there were free locations |
| IpBitmaps.RotateStep | spaceman.c:264-351 | what a rotation of the first bitmaps looks like, one more at a time |
| IpBitmaps.ReuseIff | spaceman.c:329-351 | that condition, for any queue and any choice of dirty bitmaps |
| IpBitmaps.RotatedPartition | spaceman.c:264-351 | after the rotation of a commit, each location is still used by exactly one bitmap or free exactly once |
| IpBitmaps.Moved | spaceman.c:234-254 | one location from each side changes places, and they remain a partition |
| Checkpoints.RangesApart | object.c:170-195 | consecutive stretches that fit in a ring together share no block, with wraparound |
| Checkpoints.RangeModulo | object.c:170-195 | a stretch is the same whichever turn of the ring it starts in |
| Checkpoints.WindowHolds | transaction.c:506-545 | everything written in the ring can be read back exactly when it did not go around over different data |
| Checkpoints.CpmWritten | object.c:97-163 | a mapping block adds its mappings to those of the checkpoint, in order |
| Checkpoints.Container.WriteSingle | transaction.c:506-545 | the blocks of one object follow the others in the ring, around its end if need be |
| Checkpoints.Container.CreateCpmBlock | object.c:97-129 | an empty mapping block changes no mappings and no data |
| Checkpoints.Container.CreateCpointMap | object.c:142-163 | one more mapping, or a refusal exactly when the block is full |
| Checkpoints.Container.StartCpm | transaction.c:553-666 | progress is kept when a mapping block is started |
| Checkpoints.Container.WriteObject | transaction.c:553-666 | progress is kept for one object, or nothing changes when the mapping block is full |
| Checkpoints.Container.WriteEphemeralObjects | transaction.c:553-666 | failure exactly when a limit is met; on success only the checkpoint's own stretches are written, and all objects can be read back if and only if they fit in the data ring |
| Checkpoints.Container.ReadSingle | transaction.c:130-213 | the blocks of an object, around the end of the ring |
| Checkpoints.Container.ReadCpmBlock | transaction.c:222-264 | the objects of one mapping block, in order |
| Checkpoints.Container.ReadEphemeralObjects | transaction.c:274-309 | what was written is read back as the same list in the same order, unless it is longer than the limit |
| Checkpoints.QuarterLimit | transaction.c:585-600 | a checkpoint that is not refused takes at most a quarter of the data ring if and only if no object of two blocks jumps over the limit; single blocks never do |
| Checkpoints.LimitsAre | transaction.c:585-600 | the limits are a quarter of each ring |
| Checkpoints.JumpExample | transaction.c:585-600 | a checkpoint that jumps over the limit and then goes around the ring, onto itself |
| Checkpoints.OverlapIff | transaction.c:585-600 | the data of two checkpoints in a row are apart in the ring if and only if both fit in there together |
| Checkpoints.JumpOverlap | transaction.c:585-600 | two checkpoints that jump over the limit, the second one over the first |
| Crashes.ReadMainSuper | super.c:282-408 | the scan picks a superblock with the greatest transaction of those in the descriptor ring and block zero |
| Crashes.LandedLatest | transaction.c:672-803 | whatever part of the pending writes is on disk, the last checkpoint is the newest one and all of its blocks are as committed |
| Crashes.LatestSelected | super.c:342-374 | the scan then selects it |
| Crashes.NextApart | transaction.c:553-666 | the blocks of consecutive checkpoints never overlap in the rings, unless an object jumps over the limit |
| Crashes.WriteBlocksKeeps | transaction.c:672-803 | writes outside of what the last checkpoint uses keep the invariant |
| Crashes.WriteCheckpointKeeps | transaction.c:553-666 | so do the writes of the mapping and data blocks |
| Crashes.PersistKeeps | transaction.c:672-803 | so does the arrival of any pending write |
| Crashes.TearSuperKeeps | transaction.c:18-57 | so does a superblock write that was cut short |
| Crashes.CommitSuperKeeps | transaction.c:18-57 | so does one that was not, which commits; what it commits is any set of blocks outside of the rings (see `TransactionSteps.FinishEnabled` for the one of a transaction) |
| Crashes.CopySuperKeeps | super.c:165-196 | so does the copy to block zero |
| Crashes.StepKeeps | transaction.c:18-57 | every step of the protocol keeps the invariant |
| Crashes.CrashSafe | transaction.c:18-57 | in any state that meets the invariant, a crash that leaves any subset of the pending writes on disk is followed by a mount of the last committed checkpoint, complete |
| Crashes.RunCrashSafe | transaction.c:18-57 | so it is after every run of such steps: the checkpoint mounted is the one before the superblock write or, once that has landed, the new one, and all of its blocks and objects are there |
| Crashes.AlwaysMountable | super.c:342-374 | from a new container on, the mount always finds the last checkpoint that was committed |
| Crashes.CommitRun | transaction.c:672-803 | the writes of a commit are a run of the protocol |
| Crashes.Commit | transaction.c:672-803 | the commit does exactly such a run, or fails when a limit is met; no object may jump over the limit |
| TransactionSteps.InPlaceIff | object.c:231-315 | the test of the transaction id is right: an object passes it if and only if it was written by this transaction, and then its block is not used by the last checkpoint |
| TransactionSteps.TakeEnabled | spaceman.c:1092-1366 | the new block of an allocation, and all copies that the space manager makes for it, are outside of the last checkpoint |
| TransactionSteps.TakeKeeps | spaceman.c:1325-1366 | an allocation keeps the container consistent |
| TransactionSteps.ReleaseKeeps | spaceman.c:1045-1082 | so does a block that goes to the free queue |
| TransactionSteps.ChangeEnabled | object.c:262-264 | an object that belongs to the transaction can be changed in place |
| TransactionSteps.BeginEnabled | transaction.c:366-442 | flushing the free queues only writes outside of the last checkpoint |
| TransactionSteps.RotateEnabled | spaceman.c:264-351 | the rotated bitmaps of the pool go to locations that the last checkpoint does not use |
| TransactionSteps.ObjectsEnabled | transaction.c:553-666 | the mapping and data blocks of a checkpoint go around those of the last one |
| TransactionSteps.FinishEnabled | transaction.c:18-57 | once everything is on disk, the blocks that the new checkpoint uses are all there and outside of the rings |
| TransactionSteps.FinishKeeps | transaction.c:18-57 | the commit turns the current state into that of the last checkpoint, so the next transaction starts with the link restored |
| TransactionSteps.CrashKeeps | super.c:342-374 | after a crash with any subset of the pending writes, the container is that of the last checkpoint |
| TransactionSteps.OpKeeps | transaction.c:366-803 | every write of every operation is one that the crash protocol allows, and the container stays consistent |
| TransactionRuns.HistoryKeeps | transaction.c:366-803 | so it does over any history of transactions, failures and crashes |
| TransactionRuns.MountFinds | super.c:342-374 | at any time, a crash is followed by a mount of the last checkpoint, with its bitmaps and everything else it uses as committed |
| TransactionRuns.MountsLastCommit | transaction.c:18-57 | over every history: the mount after a crash gives the superblock of the last commit in it, and every block that the filesystem used at that commit has the contents that the cache had then |
| TransactionRuns.NewContainer | super.c:342-374 | a new container is consistent, so all of this holds from there |
| Filesystems.Filesystem.constructor | super.c:342-374 | the objects in memory for a new container |
| Filesystems.Filesystem.Allocate | spaceman.c:1325-1366 | the block of the allocator, with exactly the writes of the model |
| Filesystems.Filesystem.CopyObject | object.c:266-311 | the copy has the contents of the old object and the current transaction id; the old block goes to the free queue unless a snapshot has it |
| Filesystems.Filesystem.ReadObjectBlock | object.c:231-315 | the object is found in place, or copied, as an operation of the model |
| Filesystems.Filesystem.NewBlock | spaceman.c:1325-1366 | a new block with its contents, as an operation of the model |
| Filesystems.Filesystem.ChangeObject | object.c:262-264 | a change to an object that was read for write: exactly its contents in memory |
| Filesystems.Filesystem.FreeBlock | spaceman.c:1045-1082 | exactly that block is not in use any more; what is in memory and the last checkpoint are as before |
| Filesystems.Filesystem.Begin | transaction.c:366-442 | the flush of the free queues, which may fail half-way |
| Filesystems.Filesystem.WriteIpBitmaps | spaceman.c:264-351 | the rotation of the pool bitmaps, as an operation of the model |
| Filesystems.Filesystem.WriteObjects | transaction.c:553-666 | the checkpoint is written, or refused exactly when a limit is met |
| Filesystems.Filesystem.EndCheckpoint | transaction.c:18-57 | everything is waited for, and then comes the superblock |
| Filesystems.Filesystem.Commit | transaction.c:672-803 | a commit is a history that ends with the superblock, or fails exactly when a limit is met and leaves the last checkpoint |
| Btree.PutWf | btree.c:791-1107 | replacing a node by a well-formed one, with the first keys above it, keeps the tree well formed |
| Btree.PutContents | btree.c:791-1107 | and changes the contents and the node count only there |
| Btree.PutKeySet | btree.c:1046-1107 | updating the keys of the ancestors and then the node is that replacement |
| Btree.SetAtSame | btree.c:791-848 | nothing has to be done above when the first key stays the same |
| Btree.KeySetUp | btree.c:1046-1107 | the keys of the ancestors are updated from the top down |
| Btree.Halves | node.c:1291-1416 | both halves of a node are well formed, the right one has half of the entries, and together they hold its records; the potential that bounds the number of splits decreases |
| Btree.SplitInTwo | node.c:1291-1416 | attaching the right half and then cutting the left one is the split |
| Btree.SplitKeeps | node.c:1291-1416 | a split keeps the tree well formed and its contents, adds one node and decreases the potential |
| Btree.RaisedKeeps | node.c:1041-1136 | a height increase keeps the contents and adds one node |
| Btree.RemovedKeeps | btree.c:900-991 | a removal takes exactly that record, and every node left empty |
| BtreeOps.Tree.InsertEntry | btree.c:791-848 | an entry is added to an index node, or some ancestor is split and the caller has to retry |
| BtreeOps.Tree.SplitNode | node.c:1291-1416 | an attempt always ends with exactly one split somewhere on the path |
| BtreeOps.Tree.ReplaceKey | btree.c:1046-1107 | the key of an entry changes, in all ancestors that need it, or a split happens |
| BtreeOps.Tree.PutNode | btree.c:791-1107 | the node and the keys above it change together, or a split happens |
| BtreeOps.Tree.InsertRec | btree.c:791-848 | the record is put in its leaf, or a split happens (for the room in a node, see `BtreeRoom`) |
| BtreeOps.Tree.Insert | btree.c:862-891 | the retry loop ends, and the tree is the same sorted map with one more record; first keys, record count and node count are right |
| BtreeOps.Tree.RemoveAt | btree.c:900-991 | the record is removed with the nodes that it empties, or a split happens |
| BtreeOps.Tree.Remove | btree.c:999-1028 | the retry loop ends, and exactly that record is gone |
| BtreeOps.Tree.ReplaceRec | btree.c:1046-1107 | the record changes in its leaf, whatever its new key, or a split happens |
| BtreeOps.Tree.Replace | btree.c:1124-1153 | the retry loop ends, and exactly that record changed; the tree is in order again if and only if the new key is between its neighbours |
| BtreeOps.Tree.NodeSmall | node.c:1662-1679 | a bound on the sizes of the records is one for every entry of every node |
| BtreeOps.ReplacedSorted | btree.c:1124-1153 | a sorted map with one record replaced is sorted if and only if the new key is between its neighbours |
| BtreeOps.NodeQuery | node.c:924-984 | the bisection ends at the last key that is not above the wanted one, or at none |
| BtreeOps.BeforeFirst | btree.c:451-492 | a query below the first key goes down to the first leaf |
| BtreeOps.Query | btree.c:508-597 | a single query finds the greatest record that is not above the key, in a tree of less than twelve levels |
| BtreeOps.MapInsertSorted | btree.c:862-891 | insertion in the sorted map |
| BtreeOps.MapRemoveSorted | btree.c:999-1028 | removal from the sorted map |
| BtreeOps.MapInsertIs | btree.c:862-891 | exactly the new record is added to the map |
| BtreeOps.MapRemoveIs | btree.c:999-1028 | exactly the record with the key is gone from the map |
| BtreeOps.MapReplaceIs | btree.c:1124-1153 | exactly the record with the key is another one in the map |
| BtreeOps.FoundInsert | btree.c:862-891 | inserting after the record found is inserting in order |
| BtreeOps.FoundExact | btree.c:508-597 | an exact query finds the record |
| BtreeOps.FoundRemove | btree.c:999-1028 | removing the record found is removing its key from the map |
| BtreeOps.FoundReplace | btree.c:1124-1153 | replacing the record found is replacing it in the map |
| BtreeQueries.NodeNext | node.c:851-899 | the previous record of a node, and when to go up or stop |
| BtreeQueries.NodeFirst | node.c:924-984 | the start of a multiple query in a node |
| BtreeQueries.ClimbUp | btree.c:508-597 | the way up ends at the node that holds the record before, if that can match |
| BtreeQueries.GoToLeaf | btree.c:508-597 | the way down ends at the wanted record if and only if it matches |
| BtreeQueries.FirstCall | btree.c:508-597 | the first call finds the last match |
| BtreeQueries.NextCall | btree.c:508-597 | each later call finds the match before |
| BtreeQueries.ListMatches | btree.c:508-597 | repeated calls list every matching record of the tree exactly once, in descending order, and then end; the tree may be empty |
| BtreeQueries.MatchesAre | btree.c:508-597 | the matches are a stretch of the records in order |
| BtreeQueries.DescendingIs | btree.c:508-597 | the list of them is that stretch from its end to its start |
| BtreeRoom.FullHasFour | node.c:1662-1679 | a node without room has at least four records, if the block is large enough for four of the longest |
| BtreeRoom.LargeIff | node.c:1662-1679 | only nodes that can be split are ever full, if and only if the block is that large |
| BtreeRoom.NewTree | node.c:263-332 | a tree whose nodes have the room that their blocks have |
| BtreeRoom.RoomAgrees | node.c:1651-1679 | what a block in `BtreeNode` says about its room is what the tree asks |
| NodeArea.GrowUpKeeps | node.c:1615-1625 | space for a key from the gap keeps the account exact: every byte of the area has exactly one owner |
| NodeArea.GrowDownKeeps | node.c:1635-1645 | so does space for a value |
| NodeArea.ListedKeeps | node.c:1477-1505 | so does a free segment that is listed, or leaked if it is too small |
| NodeArea.UnlinkedKeeps | node.c:1535-1605 | so does taking the start of a listed segment |
| NodeArea.ShiftedKeeps | node.c:1893-1911 | so does moving the whole key area |
| NodeArea.CutUpKeeps | node.c:1515-1528 | so does giving the end of the key area back to the gap |
| NodeArea.CutDownKeeps | node.c:1515-1528 | so does giving the start of the value area back |
| NodeList.ChainedRelink | node.c:1535-1538 | a list in the block, up to a segment that is linked to another list |
| NodeList.ListFrame | node.c:1477-1605 | writing where there are no records and no listed segments changes neither |
| NodeList.AddLarge | node.c:1477-1505 | the header written in a free segment makes it the first of the list; no live byte changes |
| NodeList.UnlinkNext | node.c:1549-1605 | skipping a segment in the block is taking it from the list; no live byte changes |
| NodeList.ListMoved | node.c:1893-1911 | the list and all keys are the same after the key area moves |
| NodeList.WalkStep | node.c:1549-1605 | following the offsets visits the segments of the list, within the block, and the bound on the walk is never met |
| BtreeNode.NodeBlock.constructor | node.c:263-332 | an empty node is valid, and all of its space is free |
| BtreeNode.NodeBlock.FreeListAdd | node.c:1477-1505 | the segment goes in the list of its area; no record changes |
| BtreeNode.NodeBlock.FreeRange | node.c:1515-1528 | freed space goes back to the gap exactly when it is next to it, or else to its list; no record changes |
| BtreeNode.NodeBlock.Unlink | node.c:1535-1538 | the segment leaves the list |
| BtreeNode.NodeBlock.FreeListAlloc | node.c:1549-1605 | the first listed segment that is large enough; no space exactly when there is none; a list is never found corrupted |
| BtreeNode.NodeBlock.AllocKey | node.c:1615-1625 | from the gap or else from the key list; no space exactly when neither can |
| BtreeNode.NodeBlock.AllocVal | node.c:1635-1645 | from the gap or else from the value list |
| BtreeNode.NodeBlock.CreateTocEntry | node.c:711-747 | the new entry makes the allocated space a record, in its place |
| BtreeNode.NodeBlock.CopyRecordRange | node.c:1148-1221 | the records dealt out again are the same, in order, and all free space is in the gap |
| BtreeNode.NodeBlock.Defragment | node.c:1687-1713 | the records are the same, and all free space is in the gap |
| BtreeNode.NodeBlock.ExpandTable | node.c:1893-1911 | the table grows and no record changes |
| BtreeNode.NodeBlock.TableIff | node.c:1165-1174 | a defragmentation never needs a larger table than the node has if and only if that table has the least size or is made of whole increments |
| BtreeNode.NodeBlock.RoomIs | node.c:1651-1654 | the room reported is exactly the block without header, table, keys and values |
| BtreeNode.NodeBlock.RoomFits | node.c:1662-1679 | if there is room for a new record, it fits after a defragmentation |
| BtreeNode.NodeBlock.FullMeansMany | node.c:1662-1679 | a node that is called full has at least four records, if neither they nor its table are too large; this is what the tree expects of its nodes before it splits them |
| BtreeNode.NodeBlock.TryInsert | node.c:1876-1967 | an attempt succeeds exactly when the gap and the lists allow it, and adds exactly the record |
| BtreeNode.NodeBlock.Insert | node.c:1876-1967 | whenever the node reports enough room, the insertion succeeds after at most one defragmentation; the records are the old ones with exactly that one between them, and the account stays exact; exact condition for failure |
| BtreeNode.NodeBlock.ReplaceFits | node.c:1662-1679 | the replacement can be done after a defragmentation that drops the old key and value, if there is room |
| BtreeNode.NodeBlock.TryReplace | node.c:1758-1862 | an attempt changes exactly that record; exact condition for failure, and then all others are intact |
| BtreeNode.NodeBlock.Replace | node.c:1758-1862 | whenever the node reports enough room, the replacement succeeds after at most one defragmentation, changes exactly that record and keeps the account exact; exact condition for failure, and then the record has lost what was to be replaced, but nothing else changed |
| BtreeNode.NodeBlock.Remove | btree.c:958-991 | the records before and after that one are all that is left, and its space can be used again |
| BtreeNode.OddTable | node.c:1165-1174 | a node with nine entries that needs a larger table |
| Unicode.JamosCompose | unicode.c:111-156 | the decomposition of a Hangul syllable composes back to it |
| Unicode.SyllableExamples | unicode.c:111-156 | the jamos of two syllables, and the ends of the range |
| Unicode.DecomposeHangul | unicode.c:136-156 | one jamo at a time |
| Unicode.Tables.NormalizeChar | unicode.c:167-215 | one character of the decomposition and case folding at a time, with no state kept in between |
| Normalize.EmittedMore | unicode.c:276-346 | repeated selection of the least combining class not given out yet puts one more character in its place |
| Normalize.EmittedOrdered | unicode.c:276-346 | so a substring is given out stably sorted by combining class |
| Normalize.OrderedConcat | unicode.c:227-260 | canonical order can be found one substring at a time |
| Normalize.OrderedIs | unicode.c:276-346 | the sorted form keeps the starters in their places and the characters of each class in their order, and has no two characters in a row that could be exchanged |
| Normalize.ScanIs | unicode.c:227-260 | the substrings start with starters and end before the next one; the scan stops inside of a character only if it has another starter after its first |
| Normalize.ScanValid | unicode.c:227-260 | the scan only fails for invalid UTF-8 |
| Normalize.AllOrdered | unicode.c:276-346 | a whole valid name is given out as its canonical decomposition (section 3.11 of the Unicode Standard) if and only if each of its characters decomposes into starters and then others; the cursor gets stuck otherwise, after some prefix of that |
| Unicursor.Cursor.constructor | unicode.c:82-89 | a new cursor has the whole name left |
| Unicursor.Cursor.GetNormalizationLength | unicode.c:227-260 | the length of the next substring up to its stop, which may be inside of a character, or zero if it is not valid |
| Unicursor.Cursor.SearchChar | unicode.c:299-329 | the best candidate so far, through the decomposition of one character |
| Unicursor.Cursor.FindNext | unicode.c:276-346 | the best candidate of the substring, if the search ends, which it does exactly when the substring ends between characters |
| Unicursor.Cursor.FromSubstring | unicode.c:276-346 | the next character of a substring, or on to the next one, or no end |
| Unicursor.Cursor.NormalizeNext | unicode.c:276-346 | each call gives the next character of the normalized name, and zero at the end; it does not return exactly when it gets stuck |
| Unicursor.SearchEnds | unicode.c:276-346 | the search for the end of a substring stops if and only if that is between two characters, whatever is read beyond the name |
| Unicursor.GreekName | unicode.c:276-346 | with case folding, the name U+1F80 gets stuck, and can't be compared with itself |
| Unicursor.CompareEqual | key.c:20-47 | the comparison is zero exactly for equal sequences that both end |
| Unicursor.CompareSign | key.c:20-47 | the comparison is negative exactly if the first string is a prefix of the second or has the lower character where they differ first, and positive exactly the other way around |
| Unicursor.FilenameCmp | key.c:20-47 | the comparison of two names is that of their normalized forms, or never ends as that one does |
| Unicursor.DrecHash | key.c:300-337 | there is a hash exactly if the normalized form ends; it starts as all ones, takes one checksum step for each character in order, and ends up as its low 22 bits above ten that are clear |
| Unicursor.HashIs | key.c:300-337 | the trail of the checksum gives the hash, which is a function of the normalized form |
| Unicursor.EqualNames | key.c:300-337 | names that compare equal always get equal hashes; for valid names an answer is always right, with zero exactly for canonically equivalent ones, and there is one for these if and only if all characters have the right shape |
| Zbitmap.CopyMeaning | libzbitmap.c:159-195 | each byte made by a bitmap is the next literal, or that of one period before, which is already there |
| Zbitmap.StoredRoundTrip | libzbitmap.c:415-442 | any data that is stored in uncompressed chunks is decoded as itself |
| Zbitmap.LengthEnds | libzbitmap.c:415-442 | with no destination, the loop ends if and only if no empty chunk is met |
| Zbitmap.StuckExample | libzbitmap.c:415-442 | ten bytes for which it never ends |
| Zbitmap.DecompressedLength | libzbitmap.c:415-442 | for any input, the length reported is that of the chunks; after one turn of the loop for each byte it has ended, or it never will |
| Zbitmap.LengthAgrees | libzbitmap.c:415-442 | for a stream that can be decoded, the length reported is that of the output |
| ZbitmapDecoder.Decoder.PutByte | libzbitmap.c:159-195 | one byte of output, within the chunk |
| ZbitmapDecoder.Decoder.CopyBytes | libzbitmap.c:159-195 | the copy as defined, all accesses in range |
| ZbitmapDecoder.Decoder.ReadPeriod | libzbitmap.c:159-195 | the period as defined, or a failure exactly when it runs past the end |
| ZbitmapDecoder.Decoder.ApplyBitmap | libzbitmap.c:159-195 | one bitmap as defined |
| ZbitmapDecoder.Decoder.ApplyNumber | libzbitmap.c:197-216 | one bitmap number as defined |
| ZbitmapDecoder.Decoder.ReadNibble | libzbitmap.c:133-147 | the next nibble, the low half of a byte before the high one, or a failure exactly at the end; `ZbitmapEncoder.NibsRead` says what is read |
| ZbitmapDecoder.Decoder.RewindNibble | libzbitmap.c:149-157 | back by one nibble |
| ZbitmapDecoder.Decoder.ReadRepetitionCount | libzbitmap.c:219-258 | the repetition count as defined, in 16 bits |
| ZbitmapDecoder.Decoder.DecompressSingleBitmap | libzbitmap.c:260-282 | one bitmap with its repetitions as defined |
| ZbitmapDecoder.Decoder.ReadBits | libzbitmap.c:291-328 | a field of bits that may straddle bytes |
| ZbitmapDecoder.Decoder.ReadBitmaps | libzbitmap.c:330-349 | the table of bitmaps at the end of the chunk, or a failure exactly when it is not valid |
| ZbitmapDecoder.Decoder.DecompressBitmaps | libzbitmap.c:351-386 | the loop ends, and gives the chunk as defined |
| ZbitmapDecoder.Decoder.ReadMetadata | libzbitmap.c:351-386 | the metadata areas are accepted exactly when they are in range |
| ZbitmapDecoder.Decoder.HandleCompressedChunk | libzbitmap.c:351-386 | the output of a compressed chunk is its definition, or both fail |
| ZbitmapDecoder.Decoder.HandleUncompressedChunk | libzbitmap.c:119-131 | the bytes of the chunk are copied |
| ZbitmapDecoder.Decoder.HandleChunk | libzbitmap.c:388-413 | one chunk as defined, with the same error |
| ZbitmapDecoder.Decoder.Decompress | libzbitmap.c:415-442 | for every input and destination the decoder ends, stays in range, and its output or error is that of the recursive definition, which decodes whatever was encoded (`ZbitmapEncoder.RoundTrip`) |
| ZbitmapEncoder.NumberBits | libzbitmap.c:159-195 | a bitmap has one byte for its eight bits |
| ZbitmapEncoder.NibsRead | libzbitmap.c:133-147 | half-bytes that were packed in pairs are read back in order |
| ZbitmapEncoder.CopiesBits | libzbitmap.c:159-195 | the bits of a bitmap put literals and bytes of one period before in their places |
| ZbitmapEncoder.ReadsPeriod | libzbitmap.c:159-195 | a period of one or two bytes is read back, or stays the last one |
| ZbitmapEncoder.AppliesOne | libzbitmap.c:197-216 | a bitmap of any number, from the table or the chunk, makes the bytes that it stands for |
| ZbitmapEncoder.RepeatsAll | libzbitmap.c:260-282 | so does any number of them |
| ZbitmapEncoder.CountRead | libzbitmap.c:219-258 | a repetition count is read back |
| ZbitmapEncoder.SingleRead | libzbitmap.c:219-258 | a single bitmap is never taken for a repeated one |
| ZbitmapEncoder.GroupsRead | libzbitmap.c:351-386 | a list of bitmaps with their repetitions gives the text that they stand for |
| ZbitmapEncoder.EntryRead | libzbitmap.c:291-349 | an entry of ten bits is read back from the table, across bytes |
| ZbitmapEncoder.TableRead | libzbitmap.c:330-349 | and so are all of them |
| ZbitmapEncoder.AreasRead | libzbitmap.c:351-386 | each area of a chunk is where its header says |
| ZbitmapEncoder.ChunkRead | libzbitmap.c:351-413 | an encoded chunk is decoded to what its bitmaps stand for, after any output and before any other chunk |
| ZbitmapEncoder.PiecesRead | libzbitmap.c:415-442 | a list of chunks, stored or encoded, is decoded to all of their texts |
| ZbitmapEncoder.RoundTrip | libzbitmap.c:415-442 | any encoded stream is decoded to its text, if the destination is large enough |
| ZbitmapEncoder.SmallStream | libzbitmap.c:415-442 | the bytes of a stream that is decoded to eight others |
| Fse.ShiftBounds | lzfse/lzfse_fse.c:34-75 | N <= (f << k) < 2N for every frequency |
| Fse.Tiles | lzfse/lzfse_fse.c:34-75 | the target intervals of the entries of a symbol tile the states exactly |
| Fse.DeltasFit | lzfse/lzfse_fse.c:34-75 | the deltas are exact in 16 bits if and only if N - 2^k <= 32767 |
| Fse.DeltaWraps | lzfse/lzfse_fse.c:34-75 | a table of 65536 states where the delta 32768 becomes -32768 |
| Fse.ShiftsBack | lzfse/lzfse_fse.c:34-75 | entry j of a symbol undoes the shift by k that takes the states above N to f + j |
| Fse.TableIs | lzfse/lzfse_fse.c:34-75 | every entry of the symbol table has its own symbol, and the bits and the delta of that shift |
| Fse.ValueTableIs | lzfse/lzfse_fse.c:88-126 | every entry of the value table agrees with that of its symbol, and has its value |
| Fse.InitDecoderTable | lzfse/lzfse_fse.c:34-75 | the loop fails exactly when the frequencies add up to too much; else the table has f entries for each symbol in order, entry j with the symbol, the bits k for which N <= (f + j) << k and (f + j + 1) << k <= 2N, and the delta ((f + j) << k) - N in 16 bits |
| Fse.FillSymbol | lzfse/lzfse_fse.c:34-75 | the entries of one symbol come next in the table, as `Fse.TableIs` describes them, and nothing else in it changes |
| Fse.InitValueDecoderTable | lzfse/lzfse_fse.c:88-126 | each entry of the value table has the delta of the symbol table, the bits and the base of its value, and the bits of both together |
| Fse.FillValues | lzfse/lzfse_fse.c:88-126 | the entries of one symbol come next in the table, as `Fse.ValueTableIs` describes them, and nothing else in it changes |
| Fse.OnePredecessor | lzfse/lzfse_fse.c:34-75 | each state has exactly one predecessor for each symbol in the finished table |
| FseCoding.PullPushed | lzfse/lzfse_fse.h:399-408 | bits that were pushed to a stream are pulled from it again |
| FseCoding.SmallCodable | lzfse/lzfse_fse.c:34-75 | tables of up to 2^15 states have exact deltas |
| FseCoding.DecodesOne | lzfse/lzfse_fse.h:483-494 | one step of the decoder gives the symbol, the state and the stream from before it was encoded |
| FseCoding.RoundTrip | lzfse/lzfse_fse.h:483-494 | any message of symbols with nonzero frequencies is decoded again with the table, and leaves the stream and the state as they were |
| FseCoding.DecodesValue | lzfse/lzfse_fse.h:502-510 | one step of the value decoder splits the bits of the state from those of the value |
| FseCoding.ValueRoundTrip | lzfse/lzfse_fse.h:502-510 | any values that their symbols can hold are decoded again with the value table |
| Fletcher.SumsBounded | object.c:16-36 | the sums never overflow 64 bits for up to two blocks of 64 KiB |
| Fletcher.Fletcher64 | object.c:16-36 | the loop computes the checksum of the plain sums |
| Fletcher.ChecksToZero | object.c:16-36 | the checksum words are the only nonzero ones that bring both sums to zero modulo 2^32-1 |
| Fletcher.SingleChange | object.c:16-36 | a change to one word changes the checksum if and only if it does not swap zero and all ones |
| Fletcher.SetCsum | object.c:80-87 | the first two words become the checksum of the rest, which is unchanged |
| Fletcher.VerifyCsum | object.c:53-61 | exactly the objects whose words add up to zero are accepted |
| Xfield.FieldAt | xfield.c:20-57 | where the key and the value of each field are in the buffer; the bytes there are the type, flags and length of the field, and its value with zeros after it up to eight bytes |
| Xfield.FindXfield | xfield.c:20-57 | the value of the first field of the type is found with its zero padding if and only if it is there; all accesses are in range for any buffer |
| Xfield.PutValue | xfield.c:89-171 | the bytes of the value and then zeros up to a multiple of eight are in their place, and nothing else changes |
| Xfield.ResizeField | xfield.c:89-171 | a value of another size moves the later ones, or fails exactly when it does not fit |
| Xfield.AppendField | xfield.c:89-171 | a new field moves all values, or fails exactly when it does not fit |
| Xfield.UpdateHeader | xfield.c:89-171 | the count and the size of the data |
| Xfield.InsertExisting | xfield.c:89-171 | the whole insertion when the type is there |
| Xfield.InsertNew | xfield.c:89-171 | the whole insertion when it is not |
| Xfield.InsertXfield | xfield.c:89-171 | the buffer holds the old fields with the new one set, with the right length if and only if the data takes less than 64 KiB; otherwise the length has the size of the data modulo that; for the bytes see `Xfield.FieldAt`, and for what can be found in there `Xfield.InsertAndFind` |
| Xfield.InitXfields | xfield.c:66-77 | no fields, or a failure exactly when the header does not fit |
| Xfield.FindAfterSet | xfield.c:20-171 | the value of the first field of a type is the new one after it was set, and as it was for every other type; distinct types stay distinct, and all fields in their places |
| Xfield.ValueIs | xfield.c:89-171 | a padded value is the value and then zeros, up to a multiple of eight |
| Xfield.InsertAndFind | xfield.c:20-171 | after an insertion in the buffer, a search of its bytes finds the new value with its padding, and those of all other fields as they were |
| Xfield.WrapExample | xfield.c:89-171 | two fields that take 65548 bytes, for which it returns 12 |

## Left out

- Buffer heads, the page cache, locks, work queues, I/O errors and lack of memory: every
  operation is atomic and only fails for its own reasons.
- The rest of the VFS layer (inodes, directories, extended attributes, symbolic links,
  ioctls): it only calls the operations modelled here.
- compress.c, the LZFSE and LZVN decoders, encryption, mount options and fusion drives.
- Corrupted metadata, except in `Zbitmap`, `ZbitmapDecoder` and `Xfield.FindXfield`, which
  take any input: the structures are well formed to begin with.
- apfs_create_single_rec_node() (node.c:1982-2069): the tree has no records that need a
  node of their own.
- apfs_node_prev() and forward queries; the comparison of keys with apfs_keycmp(): keys
  are numbers in the order of the tree, and distinct for all but multiple queries.
- BtreeOps.Tree.Insert: the room in a node is a function of the node and not its bytes.
  `BtreeRoom.RoomAgrees` is what ties it to the blocks of `BtreeNode`, and
  `BtreeRoom.LargeIff` says when it is enough for the splits.
- BtreeOps.Tree.InsertRec: the same.
- BtreeQueries.ListMatches: the limit of twelve levels is only modelled for single queries.
- BtreeNode.NodeBlock.Insert: the table of contents is a sequence of entries with a size in
  bytes, not the bytes themselves; blocks of 64 KiB are left out, because their size does
  not fit in the 16-bit offsets; and so are nodes whose least table is not made of whole
  increments, such as the index nodes of the trees of object map snapshots.
- BtreeNode.NodeBlock.Replace: the account of the bytes is not kept after a failure. The
  records of nodes with fixed sizes only get replaced by others of the same size, so the
  error for any other size is left out.
- BtreeNode.NodeBlock.CopyRecordRange: the caller ensures that the records fit, which is proved
  for a defragmentation; the errors for records that do not fit are left out.
- SpaceManagers.SpaceManager.FreeQueueInsertNocache: the free queues are sorted sequences
  without the limit on the size of their trees, and their oldest transaction is the one of
  their first record.
- Spaceman.CommitProtects: the internal pool bitmaps are protected by `IpBitmaps` instead;
  `TransactionSteps.RotateEnabled` connects them with the last checkpoint.
- Crashes.CommitSuperKeeps: the set of blocks that the checkpoint uses is any at all here;
  `TransactionSteps.FinishEnabled` has that of a transaction.
- Crashes.WriteBlocksKeeps: that the blocks are not used by the last checkpoint is a guard
  of the step here; `TransactionSteps.OpKeeps` proves it of every operation.
- Crashes.RunCrashSafe: a write of a single block is atomic, except for the superblock of a
  checkpoint, which may be torn. The guards of its steps are proved in
  `TransactionSteps.OpKeeps`, and `TransactionRuns.MountsLastCommit` is the same result for
  the operations themselves.
- Crashes.Commit: no object may jump over the limit on data blocks, as in
  `Checkpoints.JumpOverlap`; nothing in the code rules that out.
- TransactionSteps.OpKeeps: the same holds for the list of a checkpoint; there are at least
  as many free locations for the bitmaps of the pool as there are bitmaps; what the
  chunk-info blocks and the pool bitmaps hold is left open; and a volume is just its objects,
  data blocks and their owner, without the trees that refer to them.
- TransactionRuns.NewContainer: the smallest kind of container, with one chunk and one bitmap
  for the pool.
- Checkpoints.Container.WriteEphemeralObjects: object contents are opaque blocks; flags
  and checksums of the mapping blocks are left out.
- Dstreams.Dstream.Write: block numbers come from outside and are not in use yet; the
  contents of the blocks are left out, and so are zeroing and copying them.
- Dstreams.Dstream.CloneExtents: only whole streams are cloned; apfs_clone_file_range() and
  deleting from the front are left out.
- Omaps.Omap.Lookup: the objects themselves and their reference counts are left out.
- Unicode.Tables.NormalizeChar: the tables of the Unicode Standard are functions with no
  definition. What is asked of them, for the characters up to U+10FFFF, is in
  `Unicode.Tables.Valid`: no decomposition is empty or has a zero, classes are below 255,
  and ASCII characters are starters that decompose into themselves or their lower case.
- Unicursor.SearchEnds: the position in the decomposition does not overflow, and what the
  memory after a name holds is arbitrary.
- Unicursor.FilenameCmp: names that are compared byte by byte, on volumes that are
  sensitive to normalization, are left out. UTF-8 has already been decoded, with marks
  where it was not valid.
- Unicursor.DrecHash: the CRC is any function.
- FseCoding.RoundTrip: the stream of bits is a single number without the limits of its
  accumulator, and the encoder is that of the tables, which is not part of the driver.
- ZbitmapEncoder.RoundTrip: the bitmaps are chosen by whoever encodes; a chunk must not have
  exactly the length of a stored one.
- Fse.OnePredecessor: the frequencies add up to no more than the number of states, and the
  deltas fit, as `Fse.DeltasFit` says.
