# ouichefs in Dafny

A model of ouichefs, a small educational Linux filesystem, with its
formatting tools and its eviction extensions. The model covers:

- the on-disk layout of a volume. This is one superblock, an inode store,
  two free bitmaps and then the data blocks.
- the in-memory allocator: bitmaps with their free counters, where bit 0
  is reserved so that 0 can mean "none".
- the per-block reference-count table.
- the inode operations lookup, create, unlink, rmdir and rename. These work
  on directory tables of 128 fixed-size slots kept packed from slot 0.
- block mapping and write admission for regular files, and the
  truncation of the index block after a shrinking write.
- directory iteration with `.` and `..`.
- deduplication of equal data blocks.
- mount, sync and statfs.
- the two formatting tools, one in C and one in Rust, that build an
  empty image.
- the eviction framework: a policy registry, a depth-first walk of the
  tree, and the size and LRU heuristics.
- the procfs list of mounted partitions.

A volume is modelled as a map from block numbers to typed blocks. A block
number missing from the map stands for a block that cannot be read, which
gives EIO. The superblock information is a class holding the two bitmaps
as arrays, and the operations that allocate or release change them in
place. Each operation that changes the volume is a method. Its
postcondition gives the whole new state as a function of the old one.
Lemmas about those functions then prove the invariants the filesystem
relies on:

- tables stay packed;
- a name inserted can be looked up;
- the free counter matches the bitmap across grants, create and unlink;
- bit 0 stays reserved.

Modules follow the source files:

| module | source |
|---|---|
| `Layout` | `ouichefs.h` |
| `Bitmap` | `bitmap.h` |
| `RcTable` | `rc_table.h` |
| `Disk` | block reads and the inode cache |
| `DirTableOps` | the table scans shared by `inode.c` |
| `InodeOps` | `inode.c` |
| `FileOps` | `file.c` |
| `DirOps` | `dir.c` |
| `Dedup` | `dedup.c` |
| `Super` | `super.c` |
| `Mkfs` | `mkfs/mkfs-ouichefs.c` and `mkfs/src/main.rs` |
| `Eviction` | `eviction_policy/eviction_policy.c` |
| `WichSize` | `wich_size.c` |
| `WichLru` | `wich_lru.c` |
| `Partitions` | `procfs_ops/partitions.h` |

## Model

| member | source | states |
|---|---|---|
| Layout.Inc32 | rc_table.h:13 | a 32-bit counter incremented past 2^32-1 wraps to 0, otherwise moves up by one |
| Layout.Dec32 | bitmap.h:44 | a 32-bit counter decremented below 0 wraps to 2^32-1, otherwise moves down by one |
| Layout.DecThenInc | bitmap.h:44 | wrap-around increment and decrement undo each other on every 32-bit value |
| Layout.RecordGeometry | ouichefs.h:16-19 | an inode record is ten 32-bit fields and 102 of them fit a block; 128 directory slots of 4+28 bytes fill a block exactly; an index block holds 1024 block numbers, so the largest file is 1024 blocks (4 MiB); a bitmap block holds 32768 bits |
| Layout.DirIsNotReg | ouichefs.h:40-41 | no mode is both a directory and a regular file; S_IFDIR and S_IFREG are recognised |
| Layout.Occupied | ouichefs.h:83-88 | the length of the prefix of slots holding a non-zero inode number: every slot before it is occupied and the slot at it (if any) is empty |
| Layout.RegionsInOrder | ouichefs.h:22-38 | the superblock, inode store, ifree bitmap, bfree bitmap and data regions follow each other in this order, and data starts after 1 + istore + ifree + bfree blocks |
| Layout.InodeLocationRoundTrip | inode.c:30-31 | the inode-store block and slot computed for an inode number give that number back |
| Layout.InodeLocationInjective | inode.c:30-31 | two inode numbers with the same block and slot are equal |
| Layout.InodeInStore | inode.c:30-31 | every inode number below nr_inodes lies in the inode store when the store has enough blocks |
| Bitmap.FirstSetFrom | bitmap.h:25 | the lowest set bit in [k, size), or size when none is set |
| Bitmap.FirstSet | bitmap.h:25 | the lowest set bit below size, or size when none is set |
| Bitmap.Get | bitmap.h:20-66 | a grant is 0 or an index below size |
| Bitmap.GetIsFirstFit | bitmap.h:20-66 | with bit 0 reserved: the grant is 0 exactly when no bit below size is free, and then nothing changes; otherwise it is the lowest free index, only that bit is cleared and the counter moves down by one |
| Bitmap.SentinelAmbiguousWithoutReservedBit | bitmap.h:13-19 | when bit 0 is free the scan returns 0, the "none" value, yet uses bit 0 |
| Bitmap.GetThenPut | bitmap.h:71-107 | releasing a granted unit restores the bitmap and the counter |
| Bitmap.PutAcceptsUpToSize | bitmap.h:71-81 | a release is refused only for an index past size and then changes nothing; index size itself is accepted |
| Bitmap.DoubleRelease | bitmap.h:86-107 | releasing the same index twice sets one bit but counts it twice |
| Bitmap.GetPreservesConsistency | bitmap.h:38-66 | an allocation keeps the free counter equal to the number of free bits |
| Bitmap.PutUsedPreservesConsistency | bitmap.h:86-107 | releasing an index that is in use keeps the counter equal to the number of free bits |
| Bitmap.DoubleReleaseBreaksConsistency | bitmap.h:86-107 | releasing an in-use index twice leaves the counter out of step with the bitmap |
| Bitmap.ReleaseAllSetsListed | inode.c:365-379 | releasing a list of units sets exactly the listed non-zero units up to size, and no other bit |
| Bitmap.PutKeepsReserved | bitmap.h:13-19 | releasing a unit other than 0 keeps bit 0 in use |
| Bitmap.ReleaseAllKeepsReserved | bitmap.h:13-19 | releasing the units of an index block keeps bit 0 in use |
| Bitmap.ReleaseAllPreservesConsistency | bitmap.h:69-108 | releasing, once each, units that are in use keeps the free counter equal to the number of free bits |
| Bitmap.SbInfo.GetFreeInode | bitmap.h:38-49 | the inode bitmap and counter become the grant's new state, and the number returned is the grant's unit |
| Bitmap.SbInfo.constructor | super.c:266-282 | the superblock information starts with the stored geometry and counters and two zeroed bitmaps of one bit per bit of their regions |
| Bitmap.SbInfo.GetFreeBlock | bitmap.h:55-66 | the same for blocks |
| Bitmap.SbInfo.PutInode | bitmap.h:86-94 | the inode bitmap and counter become those of the release |
| Bitmap.SbInfo.PutBlock | bitmap.h:99-107 | the block bitmap and counter become those of the release |
| Bitmap.GetFirstFreeBit | bitmap.h:20-32 | returns the first set bit below size and clears it; returns 0 and leaves the map alone when none is set |
| Bitmap.PutFreeBit | bitmap.h:71-81 | returns -1 and changes nothing when i > size; otherwise sets bit i and returns 0 |
| RcTable.Incremented | rc_table.h:7-14 | only entry bno changes; its counter moves up by one (wrapping at 2^32) and its block field is kept |
| RcTable.Decremented | rc_table.h:20-31 | only entry bno changes; a positive counter moves down by one and a zero counter is left alone |
| RcTable.IncThenDec | rc_table.h:7-31 | an increment then a decrement of a counter below 2^32-1 restores the table |
| RcTable.DecThenInc | rc_table.h:7-31 | a decrement then an increment of a positive counter restores the table |
| RcTable.DecNeverWraps | rc_table.h:26-30 | a decrement never makes a counter larger |
| RcTable.MismatchOnlyLogged | rc_table.h:9-11 | a block field that disagrees with bno changes no counter update |
| RcTable.IncRefCount | rc_table.h:7-14 | reports a mismatched block field and increments the entry regardless |
| RcTable.DecRefCount | rc_table.h:20-31 | reports a mismatched block field and a counter already at zero; decrements only a positive counter |
| Disk.Iget | inode.c:23-93 | EINVAL for an inode number at or past nr_inodes; a cached inode is returned as cached; otherwise the record at slot ino mod 102 of store block ino / 102 + 1, or EIO when that block cannot be read |
| Disk.IgetFillsCache | inode.c:23-52 | a successful fetch names an inode below nr_inodes that is cached or whose store block can be read |
| Disk.Load | inode.c:23-93 | the result is the fetch's; a success leaves the inode in the cache (so fetching again gives the same inode), a failure leaves the cache alone |
| Disk.Volume.constructor | super.c:233-348 | a mounted volume starts with the given superblock information and device and an empty inode cache |
| Disk.ScrubAllZeroesListed | inode.c:365-379 | zeroing the released blocks keeps the set of readable blocks, zeroes exactly the listed non-zero blocks and leaves every other block as it was |
| DirTableOps.FindName | inode.c:122-131 | the lookup scan stops within the occupied prefix; a slot before the stop never carries the name, and a stop inside the prefix carries it |
| DirTableOps.FindNameFrom | inode.c:122-131 | the same scan resumed from slot k |
| DirTableOps.LastIndexOf | inode.c:328-335 | the last slot below n holding the inode, or -1: no later slot below n holds it |
| DirTableOps.LastNamed | inode.c:432-439 | the last slot of the table carrying the name, or -1: no later slot carries it |
| DirTableOps.Insert | inode.c:270-276 | the new entry lands in the first empty slot and every other slot is unchanged |
| DirTableOps.Remove | inode.c:337-343 | slots before f are kept, slots f+1..n-1 move down by one, slot n-1 is cleared, slots from n on are kept |
| DirTableOps.InsertKeepsPacked | inode.c:270-276 | inserting an entry with a non-zero inode keeps the table packed and appends exactly that entry to the occupied prefix |
| DirTableOps.RemoveKeepsPacked | inode.c:337-343 | removing an occupied slot keeps the table packed and removes exactly that entry from the occupied prefix, the others keeping their order |
| DirTableOps.LookupAfterInsert | inode.c:270-276 | after inserting a name that was not in the table, the lookup scan finds the new entry |
| DirTableOps.LookupAfterRemove | inode.c:328-343 | in a table with distinct names, after removing an entry the lookup scan no longer finds its name |
| DirTableOps.RenameInPlace | inode.c:449-457 | renaming an entry to a name unused in the table keeps the table packed with the same occupied count, and the lookup scan finds the new name at the entry's slot |
| DirTableOps.RenameScanOverrunsFullTable | inode.c:485-492 | on a source table with no empty slot the unbounded scan of a cross-directory rename runs past slot 127 |
| DirTableOps.RenameScanAgreesWhenNotFull | inode.c:485-492 | when the source table has an empty slot the unbounded scan stops at the first empty slot with the last slot holding the inode, as the bounded scan does |
| InodeOps.FreshInode | inode.c:188-201 | a new inode owns its one index block; a directory starts at one block of size with two links, a regular file at size 0 with one link; all three timestamps are the current time |
| InodeOps.IncLink | inode.c:283-284 | `inc_nlink` on the unsigned link count: one up below 2^32-1, 2^32-1 wraps to 0, the result stays 32-bit, and `drop_nlink` undoes it on every 32-bit count |
| InodeOps.Linked | inode.c:282-284 | the parent gaining an entry is stamped with the current time, keeps its link count for a file, gains a link for a directory with 2^32-1 wrapping to 0, and keeps every other field |
| InodeOps.Cleared | inode.c:387-397 | a released inode has every field zeroed except its link count |
| InodeOps.ScanName | inode.c:122-131 | the loop returns the lookup scan's stop |
| InodeOps.FirstFreeSlot | inode.c:270-273 | the loop returns the first empty slot, the length of the occupied prefix |
| InodeOps.ScanEntry | inode.c:328-335 | the loop returns the occupied count and the last occupied slot holding the inode (-1 if none) |
| InodeOps.ScanForRename | inode.c:427-448 | the loop reports EEXIST exactly when some slot carries the new name; otherwise it returns the last slot carrying the old name (same directory only) and the first empty slot (-1 for a full table) |
| InodeOps.Lookup | inode.c:100-142 | ENAMETOOLONG for a name over 28 characters and EIO for an unreadable parent table, the cache unchanged; otherwise a hit with the fetched inode for the first occupied slot carrying the name or a miss, and the parent's access time is stamped |
| InodeOps.NewInode | inode.c:147-211 | EINVAL for a mode that is neither directory nor regular file; ENOSPC when either counter is 0, when no inode is free, or when no block is free; the fetch error of the granted inode; otherwise success. On failure both maps and the cache are as before; on success the inode and the block are the first free ones, both maps lose exactly them, the cache holds the fresh inode, bit 0 stays reserved, and a counter that matched its bitmap still does |
| InodeOps.GiveBackInode | inode.c:205-210 | the inode granted just before is released and the inode map is as it was before the grant |
| InodeOps.Create | inode.c:220-299 | ENAMETOOLONG, EIO (unreadable parent table), EMLINK (last slot of the parent occupied), each error of new_inode, and EIO for an unreadable new index block; each leaves device, cache and both maps unchanged; in every other case create succeeds: it zeroes the new block, inserts the entry in the parent's first empty slot, takes the first free inode and block, and stamps the parent (one more link for a directory, with 2^32-1 wrapping to 0 as `inc_nlink` does); counters that matched their bitmaps still do |
| InodeOps.Abandon | inode.c:292-298 | a failed create gives the block and the inode back and restores the cache: both maps are as they were before the grants |
| InodeOps.Attach | inode.c:256-290 | the new block is zeroed, the entry goes into the parent's first empty slot, and the parent is stamped with one more link for a directory, a link count of 2^32-1 wrapping to 0 |
| InodeOps.Compact | inode.c:337-345 | the shifting loop produces exactly the table with slot f removed |
| InodeOps.ReleaseBound | inode.c:365 | unlink examines i_blocks - 1 index slots, never more than the 1024 slots of the index block |
| InodeOps.UnlinkKeepsInvariants | inode.c:308-405 | unlink succeeds, the parent table stays packed and loses exactly the unlinked entry, and bit 0 of both maps stays reserved |
| InodeOps.UnlinkKeepsConsistency | inode.c:359-402 | when the inode, its index block and its listed data blocks were in use and each is released once, both free counters still match their bitmaps after unlink |
| InodeOps.ReleaseDataBlocks | inode.c:365-379 | the release loop gives every listed non-zero block back to the block map and zeroes it |
| InodeOps.Unlink | inode.c:308-405 | EIO for an unreadable parent table; otherwise the entry is compacted out, the parent is stamped (one link fewer for a directory), the file's data blocks and index block are released and zeroed, and the inode is cleared and released |
| InodeOps.ReleaseInode | inode.c:353-405 | the second half of unlink: data blocks, index block and inode are released as the specification of unlink states |
| InodeOps.Rmdir | inode.c:525-547 | ENOTEMPTY for more than two links or a non-empty table and EIO for an unreadable table, changing nothing; otherwise exactly unlink |
| InodeOps.NoReplaceAccepted | inode.c:419-421 | rename accepts no flags or RENAME_NOREPLACE only; RENAME_EXCHANGE and RENAME_WHITEOUT give EINVAL |
| InodeOps.Rename | inode.c:407-517 | EINVAL, ENAMETOOLONG, EIO (unreadable target table), EEXIST (the name is in any slot of the target) and EMLINK (full target) change nothing; otherwise rename within one directory succeeds and renames the last slot with the old name in place; across directories the entry is inserted in the target, which is stamped and gains a link for a directory with the 32-bit wrap of `inc_nlink`, then removed from the source, which is stamped, and the result is success, or EIO with the insertion kept when the source table cannot be read |
| InodeOps.MoveAcross | inode.c:459-512 | the cross-directory half of rename: insert and stamp the target (one more link for a directory, 2^32-1 wrapping to 0), then remove and stamp the source, or EIO after the insertion |
| FileOps.GetBlock | file.c:23-64 | EFBIG from slot 1024 on and EIO for an unreadable index block; a mapped slot is returned; an unmapped slot is left unmapped without create, ENOSPC when no block is free, otherwise the first free block is granted and recorded in the slot (its contents are not touched) |
| FileOps.MappedSlotIsStable | file.c:45-57 | recording a block in a slot maps that slot and no other |
| FileOps.BlocksNeeded | file.c:88-92 | the blocks of the larger of the new end and the old size beyond the i_blocks - 1 already accounted, or 0 when there are none beyond them or the count is 0 |
| FileOps.WriteAdmission | file.c:86-94 | a write is admitted exactly when it ends within 4 MiB and the blocks it needs are available; otherwise ENOSPC |
| FileOps.AdmittedWriteNeedsAtMostIndex | file.c:86-94 | an admitted write never needs more blocks than the index block has slots |
| FileOps.AdmissionMonotone | file.c:86-94 | a write admitted with fewer free blocks, or with fewer blocks already owned, is admitted with more |
| FileOps.OverwriteAlwaysAdmitted | file.c:86-94 | a write inside the blocks a file already owns is admitted even with no free block |
| FileOps.BlocksAfterWrite | file.c:124 | after a write the block count is at least 2: one more than the data blocks of a size that is not a multiple of 4 KiB, two more when it is |
| FileOps.DataSlotsReleasedByUnlink | file.c:124 | the block count written after a write lets unlink reach every data slot the file uses, never more than 1024 |
| FileOps.UnlinkBoundAsWrittenOverruns | inode.c:365 | for a 4 MiB file the release bound as written is 1025, one past the index block, while the bounded release stops at 1024, the file's data slot count |
| FileOps.TruncatedSlotsAsWritten | file.c:145-149 | the truncation as written walks one slot per block dropped |
| FileOps.TruncationAsWrittenFreesLiveSlot | file.c:145-149 | shrinking an 8 KiB file to 1 byte releases slots 0 and 1, though slot 0 still holds the byte that remains |
| FileOps.ZeroSlotReleaseFreesBitZero | file.c:147 | releasing an empty slot gives block 0 back to the map, so 0 is no longer reserved |
| FileOps.TruncatedSlots | file.c:145-149 | the corrected truncation walks the slots from the first past the new size up to the release bound of unlink, where the source stops at i_blocks - 2 |
| FileOps.SlotValues | file.c:145-149 | the block numbers held in the listed slots, in order |
| FileOps.ClearSlots | file.c:145-149 | slots in [lo, hi) become 0 and the others are kept |
| FileOps.TruncationKeepsDataAndSentinel | file.c:145-149 | for a file last written with the old size, the corrected truncation releases the block of every slot that held data past the new size, leaves in use the blocks of the slots still holding data (when no block appears twice in the index), and keeps bit 0 reserved |
| FileOps.TruncationAsWrittenKeepsLastOldSlot | file.c:145-149 | when the old size is not a multiple of 4096, the slot of the file's last old bytes is i_blocks - 2, lies past the new end, and is outside the range as written, so its block is never released |
| FileOps.TruncationAsWrittenLeaksBlock | file.c:145-149 | an 8193-byte file rewritten to 4096 bytes: the range as written is slot 1 only, the corrected range is slots 1 and 2 |
| FileOps.TruncateIndex | file.c:145-149 | the truncation loop releases exactly the blocks of the listed slots (skipping empty ones) and clears those slots |
| FileOps.WriteEnd | file.c:107-155 | a short write changes nothing; otherwise the inode's size, block count and timestamps are updated, and when the block count shrank with a readable index block the slots from the first past the new data up to the unlink release bound are released (empty ones skipped) and cleared |
| DirOps.RunEnd | dir.c:53-61 | the first empty slot at or after i: every slot in between is occupied |
| DirOps.Run | dir.c:53-61 | the entries from slot i up to that first empty slot, each reported with its name and inode |
| DirOps.DotsFrom | dir.c:43-44 | the dot entries still due at a position: both at 0, `..` at 1, none from 2 on |
| DirOps.Slots | dir.c:53-61 | one entry per occupied slot, in slot order |
| DirOps.Listing | dir.c:21-66 | the full listing is `.`, `..` and then the occupied slots in slot order |
| DirOps.RunEndPacked | dir.c:53-61 | in a packed table the run from any occupied position ends at the occupied count |
| DirOps.RunIsSlotsTail | dir.c:53-61 | in a packed table the run from slot i is the listing of the slots from i on |
| DirOps.PendingIsListingTail | dir.c:21-66 | in a packed table what iterate still has to report at position pos is the full listing from pos on |
| DirOps.EmitRun | dir.c:53-61 | the loop reports the run from `start` as far as the caller's buffer accepts |
| DirOps.EmitDots | dir.c:43-44 | the dot entries due at the position are reported as far as the buffer accepts; the position advances by one per entry |
| DirOps.PendingAfterDots | dir.c:21-66 | reporting the dots and then the run fills the buffer exactly as reporting the pending listing at once would |
| DirOps.Iterate | dir.c:21-66 | ENOTDIR for a non-directory; nothing past position 130; the dots first; EIO for an unreadable table after the dots; otherwise the pending entries as far as the buffer accepts, the position advancing by one per entry |
| Dedup.AreEqBlocks | dedup.c:147-182 | two blocks are equal when their sizes agree and either they are the same block or both can be read and their first bytes agree |
| Dedup.AreEqSymmetric | dedup.c:147-182 | the comparison is symmetric |
| Dedup.AreEqMeansSameBytes | dedup.c:147-182 | for readable blocks of the same size, equal exactly when the first `size` bytes agree |
| Dedup.AreEqNeedsSizeAndReads | dedup.c:147-182 | blocks of different sizes are never equal, and distinct blocks one of which cannot be read are never equal |
| Dedup.NonZero | dedup.c:103-106 | the number of allocated slots, at most the slot count |
| Dedup.Pieces | dedup.c:103-132 | one piece per allocated slot, each with a non-zero block and at most 4 KiB of size |
| Dedup.PiecesCoverSize | dedup.c:103-132 | the piece sizes add up to the file size, capped at 4 KiB per allocated slot |
| Dedup.LogicalPieces | dedup.c:103-132 | the slot loop produces exactly the pieces of the file |
| Dedup.Matches | dedup.c:127-129 | only pairs of the piece with another piece of the file that is equal are reported, and every such piece is reported |
| Dedup.InnerFile | dedup.c:85-145 | every reported pair is of two different, equal blocks; EIO for an unreadable index block |
| Dedup.InnerDir | dedup.c:27-83 | every reported pair is of two different, equal blocks; EIO for an unreadable table |
| Dedup.InnerEntries | dedup.c:42-70 | every reported pair is of two different, equal blocks |
| Dedup.OuterPieces | dedup.c:103-132 | every reported pair is of two different, equal blocks |
| Dedup.OuterFile | dedup.c:85-145 | every reported pair is of two different, equal blocks; EIO for an unreadable index block |
| Dedup.OuterDir | dedup.c:27-83 | every reported pair is of two different, equal blocks; EIO for an unreadable table |
| Dedup.OuterEntries | dedup.c:42-70 | every reported pair is of two different, equal blocks |
| Dedup.DedupScan | dedup.c:14-25 | the scan returns 0 even when the walk failed; every pair it reports is of two different, equal blocks |
| Dedup.InnerFileReportsOnlyEqual | dedup.c:103-132 | a piece of the file is reported against `p` exactly when it is another block equal to `p` |
| Super.AsBits | super.c:284-319 | a bitmap block holds 32768 bits |
| Super.Stored | super.c:56-94 | an inode written to disk has every field cut to 32 bits, and an inode that fits is stored unchanged |
| Super.WithRecord | super.c:56-94 | writing a record yields an inode-store block of 102 records |
| Super.WithRecordReadsBack | super.c:56-94 | the record written is read back at its slot and every other slot of the block is unchanged |
| Super.WriteInode | super.c:56-94 | nothing past the last inode; EIO for an unreadable store block; otherwise the inode's record, at the place iget reads it from, receives its fields cut to 32 bits |
| Super.WriteThenIget | super.c:56-94 | an inode that fits in 32 bits, written and fetched again with an empty cache, comes back unchanged, and every other inode comes back as it was |
| Super.SyncSbInfo | super.c:96-122 | EIO for an unreadable block 0; otherwise the seven counters are written over the stored ones and the magic number is kept |
| Super.Statfs | super.c:206-221 | the type, block size and name length are fixed; block counts and free counts are the counters; used inodes are nr_inodes less the free ones, wrapping at 2^32 |
| Super.StatfsCountsUsedInodes | super.c:206-221 | when the free counter agrees with the inode map, the inode count reported is exactly the number of inodes in use |
| Super.Chunk | super.c:124-149 | the bits for one bitmap block are 32768 bits long |
| Super.StoreChunks | super.c:124-176 | writing a bitmap region keeps the set of readable blocks, and the outcome is success or EIO |
| Super.StoreFailSticks | super.c:124-176 | once a block of the region fails, nothing more is written |
| Super.LoadChunks | super.c:284-319 | a loaded region holds 32768 bits per block |
| Super.LoadChunksFrame | super.c:284-319 | writing a block outside a region does not change what that region loads |
| Super.StoreThenLoad | super.c:124-176 | a successfully written region loads back the bits written |
| Super.LoadThenStore | super.c:124-176 | writing back the bits just loaded succeeds, keeps every block outside the region, and leaves each region block with the same bits as before |
| Super.LoadThenStoreUpTo | super.c:124-176 | the same for any prefix of the region |
| Super.StoreMatching | super.c:124-176 | writing bits that the region already holds leaves its contents unchanged |
| Super.StoreReachesAll | super.c:124-176 | when every block of the region already holds its bits, the write succeeds |
| Super.StoreWritesChunk | super.c:124-176 | after a successful write each block of the region holds its own 32768 bits |
| Super.StoreChunksFrame | super.c:124-176 | writing a bitmap region leaves every block outside it unchanged |
| Super.StoreKeepsLoad | super.c:124-176 | writing one bitmap region does not change what a disjoint region loads |
| Super.LoadedBlock | super.c:284-319 | a successful load reads every block of the region, and each block contributes its own bits |
| Super.SyncChunks | super.c:124-176 | the flush loop writes the array's bits to the region, stopping at the first unreadable block with EIO |
| Super.SyncIfree | super.c:124-149 | the inode map is flushed to its region right after the inode store |
| Super.SyncBfree | super.c:151-176 | the block map is flushed to its region right after the inode-map region |
| Super.SyncFsSpec | super.c:189-204 | EIO with the device untouched when block 0 cannot be read |
| Super.FlushBitmapsLoad | super.c:189-204 | after the two flushes block 0 is unchanged and each region loads back its own bitmap |
| Super.SyncFs | super.c:189-204 | sync writes the counters, then the inode map, then the block map; the first failure is returned and nothing after it is written |
| Super.SyncThenLoad | super.c:189-204 | after a successful sync the device holds the counters under the stored magic number, and both regions load back the in-memory bitmaps |
| Super.LoadChunksInto | super.c:284-319 | the loading loop fills the array with the region's bits, or fails with EIO exactly when a block of the region cannot be read |
| Super.LoadFailSticks | super.c:284-319 | a region that fails to load from a prefix fails to load whole |
| Super.FillSuper | super.c:233-348 | EIO for an unreadable block 0, EPERM for a wrong magic number, EIO when either bitmap cannot be loaded, EINVAL when the volume has no inode and EIO when the root inode's store block cannot be read; in every other case the mount succeeds, with the counters as stored, both maps loaded from their regions, and the root inode 0 in the cache, owned by the mounting process's uid and gid |
| Mkfs.IdivCeil | mkfs/mkfs-ouichefs.c:74-81 | the ceiling of a / b: the smallest multiple of b not below a |
| Mkfs.MinSizeBoundary | mkfs/mkfs-ouichefs.c:351-360 | the C tool refuses an image of exactly 100 blocks, which the Rust tool accepts; every image C accepts, Rust accepts |
| Mkfs.NrBlocksCoversImage | mkfs/mkfs-ouichefs.c:95 | the block count is the number of whole 4 KiB blocks in the image |
| Mkfs.AcceptedImageHasRoom | mkfs/mkfs-ouichefs.c:95 | an image the C tool accepts has at least 100 blocks |
| Mkfs.RustImageSizeTruncated | mkfs/src/main.rs:101 | the Rust tool cuts the image size to 32 bits before dividing: an image of 4 GiB + 400 KiB is formatted as 100 blocks instead of 1048676 |
| Mkfs.RustNrBlocksAgreesBelow4GiB | mkfs/src/main.rs:101 | below 4 GiB the Rust block count is the C one |
| Mkfs.GeometryLayout | mkfs/mkfs-ouichefs.c:95-113 | for at least 100 blocks: the inode count is the block count plus its remainder modulo 102; the inode store has just enough blocks for every inode; each bitmap has a bit for every inode or block; the root directory block is followed by at least one data block; the free counts are the totals less the root's inode and block |
| Mkfs.RootInodeIsFirstDataBlock | mkfs/mkfs-ouichefs.c:151-166 | the root inode is a directory with mode 040775 (read for all, write for owner and group, search for all), uid and gid 0, size 4096, one block, two links and all times 0, whose index block is the first data block; the used blocks end right after it |
| Mkfs.WordsToBits | mkfs/mkfs-ouichefs.c:194-234 | 64 bits per little-endian word |
| Mkfs.ClearedBit | mkfs/mkfs-ouichefs.c:256-267 | a word with its n low bits cleared has bit k set exactly when k >= n |
| Mkfs.IfreeWords | mkfs/mkfs-ouichefs.c:206-225 | an inode-map block is 512 words |
| Mkfs.IfreeMarksOnlyRoot | mkfs/mkfs-ouichefs.c:206-225 | the inode map written marks every inode free except inode 0, the root |
| Mkfs.BfreeFirstWords | mkfs/mkfs-ouichefs.c:242-267 | the first block-map block is 512 words |
| Mkfs.ClearLine | mkfs/mkfs-ouichefs.c:258-265 | the inner loop clears the low min(nr_used, 64) bits of a word and counts them off nr_used |
| Mkfs.BfreeFirstBlock | mkfs/mkfs-ouichefs.c:242-267 | the loop builds exactly the first block-map block |
| Mkfs.BfreeMarksUsedPrefix | mkfs/mkfs-ouichefs.c:242-281 | in the block map written a block is in use exactly when it lies below nr_used; the later bitmap blocks are all free |
| Mkfs.FormattedBfree | mkfs/mkfs-ouichefs.c:242-281 | on a formatted volume the block map marks as used exactly the superblock, inode store, both bitmaps and root directory block, so block 0 is never granted |
| Mkfs.UsedBlocksOverflowFirstBitmapBlock | mkfs/mkfs-ouichefs.c:251-254 | the assumption that every used block fits in the first bitmap block fails for an image of 3400000 blocks |
| Mkfs.MagicBytes | mkfs/src/main.rs:20 | the magic number is the four bytes "WICH" read little-endian |
| Eviction.Without | eviction_policy/eviction_policy.c:102 | unlinking leaves no policy at that address and removes no other policy |
| Eviction.UnregisterUndoesRegister | eviction_policy/eviction_policy.c:47-105 | registering an unlinked policy and then unregistering it gives back the list it was added to |
| Eviction.FirstNamed | eviction_policy/eviction_policy.c:129-135 | the first listed policy with the name, or none when no listed policy has it |
| Eviction.Registry.constructor | eviction_policy/eviction_policy.c:25-32 | the list holds only the default policy, which is current |
| Eviction.Registry.Register | eviction_policy/eviction_policy.c:47-69 | EINVAL for a NULL policy or a name over 32 characters, changing nothing; otherwise the policy goes to the tail of the list and becomes current; every listed policy keeps a distinct address |
| Eviction.Registry.Unregister | eviction_policy/eviction_policy.c:85-105 | nothing for NULL or the default policy; otherwise the policy is unlinked and the default becomes current if it was current |
| Eviction.Registry.Set | eviction_policy/eviction_policy.c:120-140 | EINVAL for a NULL name or an unknown name, changing nothing; otherwise the first listed policy with that name becomes current, never the default |
| Eviction.TraverseNests | eviction_policy/eviction_policy.c:162-227 | the walk is well nested: each directory's before is matched by its after, and each leaf is reported with the innermost open directory |
| Eviction.TraverseStopsAtFirstEmpty | eviction_policy/eviction_policy.c:178-182 | the slots after the first empty one make no difference to the walk |
| Eviction.WalkFromInodeHasParentInodes | eviction_policy/eviction_policy.c:195-222 | started from a node carrying an inode, every leaf is reported with a parent and a child that carry one |
| Eviction.RootFileHasNoParentInode | wich_size.c:75-77 | started from the inode-less root node, as clean_partition starts it, a file in the root directory is reported with a parent that has no inode |
| Eviction.Leaves | eviction_policy/eviction_policy.c:211-222 | the leaf reports in walk order; when every leaf carries inodes so does every pick |
| Eviction.MinStep | wich_size.c:24-44 | the first leaf is taken; afterwards the candidate is kept or replaced by the leaf |
| Eviction.MinFold | wich_size.c:24-44 | the fold has a candidate exactly when it saw a leaf |
| Eviction.MinIndex | wich_size.c:24-44 | a position whose key is smallest and strictly smaller than every earlier one |
| Eviction.EarliestMinUnique | wich_size.c:24-44 | only one position is the earliest with the smallest key |
| Eviction.MinFoldPicksEarliestMin | wich_size.c:24-44 | the leaf action keeps the earliest leaf with the smallest key |
| WichSize.SizeStep | wich_size.c:24-44 | the first leaf is taken; a later one replaces the candidate exactly when it is strictly smaller |
| WichSize.SizeData.constructor | wich_size.c:73 | the walk starts with no candidate |
| WichSize.SizeData.LeafAction | wich_size.c:24-44 | the candidate becomes the one SizeStep chooses |
| WichSize.SelectFrom | wich_size.c:57-77 | EIO exactly when the root has no directory block or it cannot be read; otherwise success, with none when the walk meets no file, else the earliest smallest file of the walk |
| WichSize.CleanPartition | wich_size.c:57-87 | EIO exactly when the root has no directory block or it cannot be read; otherwise success, with none when the walk from the root inode meets no file, else the earliest smallest file of that walk, and the chosen file and its parent both carry an inode |
| WichSize.CleanDir | wich_size.c:103-150 | -1 when the occupied slots hold no file; otherwise 0 and the earliest smallest file among the occupied slots |
| WichLru.IsOlder | wich_lru.c:33-44 | negative, zero or positive as the selected timestamp of the first inode is earlier, equal or later; any mode other than 1 or 2 compares change times |
| WichLru.LruStep | wich_lru.c:59-79 | as written: the first leaf is taken; a later one replaces the candidate whenever their timestamps differ, older or newer |
| WichLru.LruData.constructor | wich_lru.c:108 | the walk starts with no candidate |
| WichLru.LruData.LeafAction | wich_lru.c:59-79 | the candidate becomes the one LruStep chooses |
| WichLru.LruFold | wich_lru.c:59-79 | the fold has a candidate exactly when it saw a leaf |
| WichLru.LastRunStart | wich_lru.c:59-79 | the start of the last run of leaves sharing the final leaf's timestamp |
| WichLru.LruFoldPicksLastRun | wich_lru.c:59-79 | as written the leaf action ends on the first leaf of the last run of equal timestamps, whatever the earlier timestamps |
| WichLru.LruPicksNewerFile | wich_lru.c:72 | with an older file met first, the heuristic as written picks the newer one |
| WichLru.OldestStep | wich_lru.c:72 | the corrected leaf action replaces the candidate only with a strictly older file |
| WichLru.SelectFrom | wich_lru.c:92-122 | EIO exactly when the root has no directory block or it cannot be read; otherwise success, with none when the walk meets no file, else the first leaf of the last run of equal timestamps |
| WichLru.CleanPartition | wich_lru.c:92-122 | EIO exactly when the root has no directory block or it cannot be read; otherwise success, with none when the walk meets no file, else (corrected) the earliest oldest file of the walk started from the root inode, whose parent carries an inode |
| WichLru.CleanDir | wich_lru.c:136-184 | as written: all 128 slots are examined; -1 when none holds a file; otherwise 0 and a file whose timestamp every later file shares and the nearest earlier file does not |
| WichLru.CleanDirOldest | wich_lru.c:136-184 | corrected: -1 when no slot holds a file; otherwise 0 and the earliest oldest file |
| Partitions.FirstOn | procfs_ops/partitions.h:50-51 | the first listed partition on the super block, or none when no listed partition is on it |
| Partitions.PartitionList.constructor | procfs_ops/partitions.h:11-15 | the list starts empty |
| Partitions.LinesAppend | procfs_ops/partitions.h:78-80 | one more partition adds its name line at the end |
| Partitions.PartitionList.Remember | procfs_ops/partitions.h:28-34 | the new partition goes to the front of the list |
| Partitions.PartitionList.Forget | procfs_ops/partitions.h:46-57 | the first partition on the super block is unlinked and the walk stops there |
| Partitions.PartitionList.Show | procfs_ops/partitions.h:72-83 | the header line, then one line per partition name in list order |
| Partitions.ForgetRemovesFirstMatch | procfs_ops/partitions.h:46-57 | with no partition on the super block nothing changes; otherwise exactly the first partition on it is removed and the others keep their order |
| Partitions.ForgetUndoesRemember | procfs_ops/partitions.h:28-57 | forgetting a super block just remembered gives the list back |
| Partitions.ShowListsNewestFirst | procfs_ops/partitions.h:28-83 | the partition remembered last is listed first |

## Left out

- The page cache, buffer heads, `mark_buffer_dirty`, `brelse`, `iput` and reference counting of in-memory inodes: a block read is a lookup in the device map and a write replaces the entry.
- Locks and concurrency: every operation runs alone.
- Memory allocation failures (`iget_locked`, `kmalloc`, `d_make_root` returning NULL) are not modelled; `ouichefs_iget` fails only with EINVAL or EIO.
- A block read through a layout other than the one it was written with gives that layout's all-zero view; the model does not reinterpret bytes across layouts.
- `mkdir` is `create` with a directory mode and is covered by `InodeOps.Create`; the VFS glue (`inode_operations`, `file_operations`, `mount`/`kill_sb`, `put_super`, module init) is not modelled.
- Owner and group come from `inode_init_owner` in the kernel; here they are parameters of `NewInode` and `Create`, and of `FillSuper` for the root inode (the mounting process's fsuid and fsgid).
- `current_time` is a parameter `now`; timestamps are whole seconds and the LRU comparison orders them as numbers.
- File names are compared as whole strings; the NUL padding of the 28-byte name field and `strncmp` are not modelled beyond the length check.
- InodeOps.DropLink: the warning `drop_nlink` prints for a zero link count is not modelled; the count wraps to 2^32-1 as in the source.
- FileOps.GetBlock: the buffer-head mapping (`map_bh`) and the dirty marking of the index block are not modelled; the result says which device block the file block maps to.
- FileOps.WriteEnd: the generic part of `write_end` is not modelled; what it reports as written and the file size it leaves are parameters.
- `ouichefs_write_begin` beyond its admission check (`block_write_begin`, the eviction call of the extended tree) is not modelled; `FileOps.WriteAdmission` states the check.
- Bitmap.PutFreeBit: an index equal to the size is accepted as in the source, but when it lies past the bitmap's array the model does not write it, where the C code would write past the end.
- The reference-count table of `rc_table.h` is modelled on its own; no operation of the core calls it.
- Dedup: the walks take a `fuel` depth bound, since a device map may hold a cyclic tree; fetched inodes are not added to the inode cache, and the log lines are the reported pairs.
- Eviction.Traverse: `fuel` bounds the depth of the walk; an inode that cannot be fetched ends the walk of its directory, where the source would dereference an error pointer.
- The eviction heuristics get the root inode (`get_root_inode`) as a parameter, and clean_dir gets the inodes fetched for the slots as a parameter; the removal they end with (`ouichefs_remove`) is not part of this model.
- WichSize.SelectFrom: when the walk meets no file, clean_partition dereferences the NULL candidate (`d.child->i_sb`) and calls `ouichefs_remove(NULL, NULL)`; the model returns no candidate instead and does not capture that crash.
- WichLru.SelectFrom: when the walk meets no file, clean_partition dereferences the NULL candidate and calls `ouichefs_remove(NULL, NULL)` the same way; the model returns no candidate instead and does not capture that crash.
- WichSize: the comments speak of the biggest file but the code keeps a file only when it is strictly smaller; the model follows the code and picks the smallest file.
- Eviction.Registry.Unregister: unregistering a policy that is not in the list is excluded by the precondition, as the source does not check it and `list_del` would corrupt the list.
- Eviction.Registry.Register: registering a policy whose list node is already linked is excluded by the precondition, as the source does not check it and would corrupt the list.
- Policy and partition identity (pointer comparison) is modelled by a numeric address.
- Partitions.PartitionList.Remember: a failed `kmalloc` is not modelled.
- Mkfs: opening and sizing the image file, writing blocks to it, and the printed summary are not modelled; the tools are functions from the image size to the blocks written.
- Mkfs.NrBlocks: the C tool's 32-bit block count would also wrap for images of 2^44 bytes or more; the lemmas require smaller images.
- Mkfs.BfreeFirstBlock: requires that every used block fits in the first bitmap block, as the source comment assumes; `Mkfs.UsedBlocksOverflowFirstBitmapBlock` shows the assumption fails for large images.
- Mkfs.GeometryLayout: the Rust tool's overflow panics in debug builds are not modelled; both tools are modelled with 32-bit wrap-around and the lemma requires block counts where nothing wraps.

## Findings

| source | as written | input that shows it | evidently intended | confidence | as-written member | corrected member |
|---|---|---|---|---|---|---|
| file.c:145-149 | after a shrinking write the truncation starts at slot `i_blocks - 2`, which is `i_size / 4096` | an 8 KiB file rewritten to 1 byte: slots 0 and 1 are released, but slot 0 still holds the remaining byte | start at the first slot past the file's data, `ceil(i_size / 4096)` | not executed | FileOps.TruncationAsWrittenFreesLiveSlot | FileOps.TruncationKeepsDataAndSentinel |
| file.c:145 | the truncation loop stops before slot `nr_blocks_old - 2`, which is the slot of the last old bytes when the old size is not a multiple of 4096 | an 8193-byte file (i_blocks 4, data in slots 0-2) rewritten to 4096 bytes: slot 1 is released, slot 2 keeps its block, which is lost | release every slot the old size used, up to `ceil(old size / 4096)` | not executed | FileOps.TruncationAsWrittenKeepsLastOldSlot | FileOps.TruncationKeepsDataAndSentinel |
| file.c:147 | `put_block` is called on every truncated slot, empty ones included | a truncated range containing a hole (slot value 0) | skip empty slots, as unlink does | not executed | FileOps.ZeroSlotReleaseFreesBitZero | FileOps.TruncateIndex |
| inode.c:365 | unlink examines `i_blocks - 1` index slots | a 4 MiB file has i_blocks 1026, so the loop reads slot 1024 of a 1024-slot index block | stop at the 1024 slots of the index block | not executed | FileOps.UnlinkBoundAsWrittenOverruns | FileOps.DataSlotsReleasedByUnlink |
| inode.c:486 | the source-table scan of a cross-directory rename has the constant `OUICHEFS_MAX_SUBFILES` as its loop condition | moving an entry out of a directory whose 128 slots are all occupied: the scan reads past slot 127 | loop while `i < OUICHEFS_MAX_SUBFILES` | not executed | DirTableOps.RenameScanOverrunsFullTable | InodeOps.ScanEntry |
| mkfs/src/main.rs:101 | the image size is cast to 32 bits before the division by 4096 | an image of 4 GiB + 400 KiB is formatted as 100 blocks instead of 1048676 | divide first, as the C tool does | not executed | Mkfs.RustImageSizeTruncated | Mkfs.NrBlocksCoversImage |
| wich_size.c:75 | clean_partition starts the walk from a node with no inode, and files of the root directory are reported with it as their parent | a regular file in the root directory: leaf_action dereferences the parent's NULL inode | start the walk from a node carrying the root inode | not executed | Eviction.RootFileHasNoParentInode | WichSize.CleanPartition |
| wich_lru.c:72 | leaf_action replaces the candidate whenever `is_older` is non-zero, older or newer | two files with change times 1 and 9, the older met first: the newer one is picked | replace only when `is_older` is negative | not executed | WichLru.LruPicksNewerFile | WichLru.CleanPartition |
