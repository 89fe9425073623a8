# MiniExt4, verified model

MiniExt4 is a small ext4 implementation: a disk of 4096-byte blocks divided into groups with block and
inode bitmaps, regular files mapped by an extent tree whose root sits in the inode, directories of
variable-length records with an optional hash index, and a VFS with a dentry cache above it.  This
project states what those parts promise each other and proves it.

The parts build on each other:

| files | subject |
|---|---|
| `Runs`, `Bitmap`, `FreeSpace` | runs of blocks with multiplicity, bitmaps bit by bit, free blocks as a set, counts |
| `Balloc`, `Ialloc`, `Mkfs` | the block allocator with its bitmap cache and batched counts, the inode allocator, the volume they start from |
| `ExtentTree`, `LeafInsert`, `TreeUpdate`, `TreePath`, `TreeInsert`, `TreeSpine` | extent trees as values: their map, what they own, every stage of an insertion, and how deep appending makes them |
| `ExtentNode`, `Extents` | the code that changes nodes, disk blocks and the root |
| `InodeFree` | truncation with its four static buffers |
| `FileData`, `RegularFile`, `BlockIo` | files as byte sequences, batched reading and writing, sectors |
| `VolumeState`, `Volume` | any number of files on one volume: ownership and contents over every run |
| `Descriptors`, `OpenFiles` | open files with positions: what they refine, and on which runs |
| `LegacyMap`, `LegacyInode` | direct, single and double indirect mapping, and freeing it |
| `DirBlock`, `Directory`, `NameHash`, `HTree` | directory blocks byte by byte, linear directories, the hash of a name, the split of a hash-indexed leaf |
| `Dcache`, `Components`, `PathWalk` | reference counts of dentries, the names of a path, and path resolution |
| `Calendar` | dates and seconds |

Code that changes memory in place is a class or works on arrays here too; its methods are proved
against functions and predicates on values, and the theorems are lemmas about those.  A tree node is a
header with its used slots, an inode's root a node of four slots, a disk a map from block numbers to
tree blocks and data blocks.  Ownership is counted with multisets, so that "exactly once" is an equation:
`Mapped` (what one insertion does), `Conserved` (every block of a volume is free, owned by one file, or
held elsewhere, and that once) and `Moved` (what a write does to ownership) are the predicates to read first.

Some properties one would like are false of the code.  For each there is an exact condition, and an input on
which it fails:

* descriptors stay within their files, so that files are byte sequences with a mapped prefix, if and only if
  every truncating open finds the other descriptors of its file at position 0 (`Descriptors.RunPositions`);
  two descriptors on one file, with a truncation between their writes, leave what is no file any more
  (`OpenFiles.Strand`);
* the static buffers of truncation suffice if and only if the tree has depth at most 4
  (`InodeFree.FourBuffersSuffice`, `InodeFree.TooDeep`); the trees of files below 4 GiB never get deeper than 3
  (`FileData.StaysLean`), so nothing of a file is ever lost (`Volume.Mount.Truncate`);
* after an HTree split routing is exact if and only if the hashes on the two sides of the cut differ
  (`HTree.SplitRouted`, `HTree.IndexedDir.SplitLeaf`); the names "vff" and "vgg" have one hash
  (`NameHash.Collide`, `HTree.SplitColliding`);
* block numbers mean the same bit to allocation and to freeing if and only if both use the same group size
  or one group holds all blocks (`Mkfs.GroupSizesAgree`, `Mkfs.ForeignGroups`); on volumes made by mkfs they do;
* freeing a number keeps the counts right if and only if it is a block of the volume, or is refused, or its bit
  is clear (`Balloc.CountsAfterClear`, `Balloc.Allocator.FreeBlock`); on a fresh volume whose last group is
  short, the number behind the last block is none of these (`Mkfs.MkfsAndMount`);
* a new run keeps the extents in order if and only if none of its blocks is mapped (`LeafInsert.InsertExactly`,
  `TreeInsert.RunExactly`, `LeafInsert.InsertOver`); the code looks at the first block only, which is enough for files, whose mapped
  blocks are a prefix;
* a path is found if and only if the walk without a cache finds it and no name has 32 bytes or more
  (`PathWalk.Walker.PathLookup`, `PathWalk.LoseLongName`), as long as there are dentries.

A failed insertion at the end of a file is part of the model: the tree keeps its map, the blocks taken so far
belong to nobody, and a write reports failure with the file as long as it was (`RegularFile.File.Write`).

`dafny verify dfyconfig.toml` checks the whole project.

## Model

| member | source | states |
|---|---|---|
| Bitmap.BitAfterSetRun | fs/ext4/balloc.c:290-296 | marking a run sets exactly its bits in the bytes of the bitmap and no other bit |
| Bitmap.BitByValue | fs/ext4/balloc.c:268-296 | bit k is bit k % 8, counted from the lowest, of byte k / 8 taken as a number |
| Bitmap.CountSetRun | fs/ext4/balloc.c:479-487 | marking a clear run lowers the number of clear bits by its length |
| Bitmap.CountClearBit | fs/ext4/balloc.c:610-631 | clearing a set bit raises the number of clear bits by one |
| FreeSpace.AllocRun | fs/ext4/balloc.c:460-474 | setting a clear run takes exactly that run out of the free set |
| FreeSpace.FreeOne | fs/ext4/balloc.c:594-619 | clearing the bit of a block puts exactly that block into the free set |
| FreeSpace.SumIsFree | fs/ext4/super.c:1138-1183 | when every group's count is right the counts add up to the number of free blocks |
| FreeSpace.AddUp | fs/ext4/super.c:1138-1183 | the loop over the groups adds their counts up |
| Balloc.FullMeansNone | fs/ext4/balloc.c:407-458 | no group has a clear bit at index 1 or above exactly when the allocator has nothing to hand out |
| Balloc.ScanFreeRun | fs/ext4/balloc.c:261-288 | the run returned is clear, inside the interval and at most the goal, the first of that length; a shorter one means that no longer clear run lies there |
| Balloc.NothingFound | fs/ext4/balloc.c:442-458 | two scans that find nothing leave no run of the wanted length on either side of the cursor |
| Balloc.RunPlace | fs/ext4/balloc.c:461-470 | a run found in a group lies inside the group and the volume, so the bounds checks behind the marking never strike |
| Balloc.Allocator.Mount | fs/ext4/super.c:725-802 | mounting starts the allocator in a valid state with nothing cached and nothing pending, every cursor at bit 1 and the search at group 0 |
| Balloc.Allocator.CacheFlush | fs/ext4/balloc.c:218-235 | a dirty valid cache is written to the bitmap of its group, anything else stays |
| Balloc.Allocator.CacheLoad | fs/ext4/balloc.c:237-256 | afterwards the cache holds the bitmap on disk of the group, and no bitmap has changed |
| Balloc.Allocator.SyncSuper | fs/ext4/super.c:1096-1189 | the superblock total becomes the sum of the group counts |
| Balloc.Allocator.CountUpdate | fs/ext4/balloc.c:514-518 | after an update one more is pending, or a full batch has just made the superblock total the number of free blocks |
| Balloc.Allocator.SetBatch | fs/ext4/balloc.c:210-216 | the size of a batch becomes the one asked for, and at least 1 |
| Balloc.Allocator.Flush | fs/ext4/balloc.c:298-311 | nothing is pending afterwards, and pending updates have made the superblock total exact |
| Balloc.Allocator.FindRun | fs/ext4/balloc.c:418-458 | a run found is the one that next fit picks: the longest of at most the goal, the first of its length, at or after the cursor, or before it when there is none; none found means there is none |
| Balloc.Allocator.TakeRun | fs/ext4/balloc.c:460-518 | the run's bits and the counts change together, the cache is clean again, and the cursors stand right behind the run |
| Balloc.CountsAfterTake | fs/ext4/balloc.c:479-491 | taking a clear run and its length off the count keeps every count right, and the clamp at 0 loses nothing |
| Balloc.Allocator.ScanGroups | fs/ext4/balloc.c:407-520 | one wrapping pass finds a run exactly if some group has one of the kind wanted, and takes it from the first such group in the order of the pass |
| Balloc.Allocator.TwoPasses | fs/ext4/balloc.c:400-521 | the full goal from the first group that has it, if any has; otherwise the longest run of the first group that is not full |
| Balloc.Allocator.NewBlocksInGroup | fs/ext4/balloc.c:320-531 | the run lies in one group, was free, is now used and nothing else changed; it is the one next fit picks (`NextFit`): in the group asked for, else the one of the last run, else the first that follows it and has a run of the kind, at or after its cursor first; 0 exactly when nothing can be had, whatever the cursors; the full goal exactly when some group has it on one side of its cursor; the cursors then stand right behind the run |
| Balloc.NextFitOnce | fs/ext4/balloc.c:389-458 | bitmaps, cursors and request decide which run is handed out |
| Balloc.PreferredAnswers | fs/ext4/balloc.c:389-413 | the group asked for, or else the one the last run ended in, answers a request for one block unless it is full |
| Balloc.CursorFirst | fs/ext4/balloc.c:439-458 | when the full goal can be had at or behind the cursor of the group, the run is the first such |
| Balloc.NextBehind | fs/ext4/balloc.c:492-511 | the block handed out after a run is the one right behind it, if that is free; behind the end of a group it comes from the group that follows while that has any |
| Balloc.Allocator.NewBlocks | fs/ext4/balloc.c:533-536 | the same without a preferred group |
| Balloc.Allocator.NewBlock | fs/ext4/balloc.c:538-542 | one block, the one next fit picks; 0 exactly when nothing can be had |
| Balloc.Allocator.ClearOnDisk | fs/ext4/balloc.c:581-643 | bit and count change together on disk, which keeps the counts right exactly for a bit that stands for a block; a cached copy of that bitmap is dropped and any other kept |
| Balloc.CountsAfterClear | fs/ext4/balloc.c:574-625 | clearing a set bit and counting it keeps the counts right exactly when the bit stands for a block |
| Balloc.Allocator.FreeBlock | fs/ext4/balloc.c:558-648 | the free set grows by exactly the block; freeing a free block changes nothing; the allocator stays valid exactly for blocks of the volume, numbers that are refused, and clear bits |
| Ialloc.InodeAllocator.New | fs/ext4/ialloc.c:250-346 | 0 exactly when no inode is free; otherwise the lowest free inode of the group asked for, or of the next group that has any, is taken, its group's count follows, and the superblock total is exact |
| Ialloc.InodeAllocator.Release | fs/ext4/ialloc.c:361-456 | exactly the inode becomes free, with exact counts; the allocator stays valid exactly for inodes of the volume, numbers that are refused, and clear bits |
| Ialloc.TakeOne | fs/ext4/ialloc.c:310-343 | setting one clear bit keeps every count right, and the clamp at 0 never loses an inode |
| Ialloc.NothingFree | fs/ext4/ialloc.c:299-319 | when every group has been scanned in vain no inode is free |
| Mkfs.GeoWf | fs/ext4/super.c:224-238 | up to 32768 blocks are one group; more are divided into groups of 32768 that cover the volume, of which only the last may be short |
| Mkfs.AllocBlocks | fs/ext4/balloc.c:346-387 | allocation looks at exactly the blocks of the superblock that lie on the device and in the groups of the superblock |
| Mkfs.GroupSizesAgree | fs/ext4/balloc.c:562-564 | allocation and freeing locate every block alike exactly when their group sizes are equal or one group holds everything |
| Mkfs.ForeignGroups | fs/ext4/super.c:711-779 | with 8192 blocks per group in the superblock, block 8192 is allocated and freed at different bits |
| Mkfs.MkfsGeometryAgrees | fs/ext4/balloc.c:346-387 | on a volume made by mkfs they agree, whatever the size of the device |
| Mkfs.RoomyEnds | fs/ext4/super.c:399-414 | every group can hold its metadata exactly when the first and the last one can |
| Mkfs.TableSizes | fs/ext4/super.c:370-372 | descriptor blocks and inode table are just long enough for 32 bytes a group and 256 bytes an inode |
| Mkfs.SideBySide | fs/ext4/super.c:402-422 | superblock, descriptors, bitmaps, inode table and root block of a group are disjoint and fill its first blocks |
| Mkfs.EndBitsAt | fs/ext4/super.c:476-505 | exactly the used prefix and the tail beyond the group are set in a fresh bitmap |
| Mkfs.EndBitsCount | fs/ext4/super.c:473-486 | the clear bits of a fresh bitmap are the blocks behind its used prefix |
| Mkfs.FillBitmap | fs/ext4/super.c:476-486 | the two loops set the first bits and the tail bits |
| Mkfs.FormatGroup | fs/ext4/super.c:385-434 | the descriptor and both bitmaps of a group fit each other and its layout: block bitmap, inode bitmap and inode table behind superblock and descriptors |
| Mkfs.Format | fs/ext4/super.c:369-508 | all groups are laid out and filled in that way |
| Mkfs.MkfsCounts | fs/ext4/super.c:413-434 | mkfs establishes what the allocators keep: every block and inode count equals the clear bits of its bitmap |
| Mkfs.MkfsFree | fs/ext4/super.c:462-489 | the free blocks of a fresh volume are those behind the metadata of their group |
| Mkfs.MetadataApart | fs/ext4/super.c:399-422 | each metadata block is in range, used for one purpose in one group, and not free |
| Mkfs.UsedIsMetadata | fs/ext4/super.c:462-489 | a block of a fresh volume is in use exactly when it holds metadata |
| Mkfs.MkfsAndMount | fs/ext4/super.c:385-508 | mounting a fresh volume of any size gives a valid block allocator; freeing the number behind its last block is harmless exactly if its last group is not short |
| Mkfs.FirstBlock | fs/ext4/balloc.c:320-531 | the first block that a fresh volume hands out for a group is the one right behind its metadata |
| Mkfs.FreshInodes | fs/ext4/super.c:490-505 | the free inodes of a fresh volume are those from number 11 on; with fewer than ten inodes a group those from 3 on |
| Mkfs.InodeTotal | fs/ext4/super.c:268-272 | the free inodes of a fresh volume are all but the reserved ones of group 0, counted |
| Mkfs.MkfsInodes | fs/ext4/super.c:239-272 | a fresh volume gives a valid inode allocator, and the 32-bit total that mkfs writes is the number of free inodes; inodes 1 and 2 are not free |
| Mkfs.FirstInode | fs/ext4/ialloc.c:250-346 | the first inode handed out on a fresh volume is number 11 |
| Mkfs.RootStays | fs/ext4/ialloc.c:250-456 | over every run on a fresh volume on which nobody gives back the root's inode it is never handed out |
| Mkfs.TailSet | fs/ext4/super.c:482-486 | the bit behind the last block of a short group is set |
| Mkfs.SlotInTable | fs/ext4/super.c:942-1015 | the disk location of an inode lies inside the inode table of its group |
| Mkfs.InodeSlotsApart | fs/ext4/super.c:942-1015 | two inodes never share a byte of the disk |
| ExtentTree.FlatWf | fs/ext4/extents.c:10-13 | the extents of a well-formed tree, left to right, are sorted, disjoint and start at the index keys |
| ExtentTree.FlatRange | fs/ext4/extents.c:10-13 | a subtree maps its own key and nothing outside its bounds |
| ExtentTree.Frame | fs/ext4/extents.c:10-13 | a subtree's map and nodes depend on its own blocks only |
| LeafInsert.InsertExtentCorrect | fs/ext4/extents.c:213-308 | merging to either side or taking a slot, the list stays sorted, its map is overwritten by exactly the new run and its blocks grow by exactly that run; it fails only when full |
| LeafInsert.PlainInsert | fs/ext4/extents.c:301-305 | an insertion at the upper bound keeps order and disjointness and adds exactly the run |
| LeafInsert.InsertExactly | fs/ext4/extents.c:213-308 | merging or not, the list stays well formed exactly when no block of the new run was mapped |
| LeafInsert.InsertOver | fs/ext4/extents.c:241-308 | a run whose first block is unmapped and whose third is, and the disorder it leaves |
| ExtentNode.NodeBuf.InitNode | fs/ext4/extents.c:119-140 | the node is empty, with as many slots as its memory holds |
| ExtentNode.NodeBuf.Find | fs/ext4/extents.c:151-204 | finds the slot that covers a block exactly when the list maps it |
| ExtentNode.NodeBuf.InsertPos | fs/ext4/extents.c:240-243 | the position is the first with a greater key |
| ExtentNode.NodeBuf.ShiftIn | fs/ext4/extents.c:414-438 | the tail moves up by one slot and the element takes the gap |
| ExtentNode.NodeBuf.Insert | fs/ext4/extents.c:213-308 | the in-place merge and insertion is the insertion function on the used slots, and changes nothing on failure |
| ExtentNode.NodeBuf.Split | fs/ext4/extents.c:577-613 | the slots of both halves are the cut at the insertion point with the new slot on the side the code chooses |
| TreePath.PathLevel | fs/ext4/extents.c:335-411 | each node on the path answers for the block looked up as the whole tree does, inside known bounds |
| TreePath.LiftPath | fs/ext4/extents.c:831-881 | an update of one node on the path is an update of the whole tree |
| TreeInsert.LeafCut | fs/ext4/extents.c:557-632 | after a leaf split the two halves together hold the old map and the new run |
| TreeInsert.IndexStays | fs/ext4/extents.c:658-681 | an index node with room takes the new right sibling, and everything below it is the old map and the new run |
| TreeInsert.IndexCut | fs/ext4/extents.c:683-748 | the same for an index node that is split in its turn |
| TreeInsert.Grow | fs/ext4/extents.c:764-825 | after root growth the tree is one level deeper, well formed, and maps and owns the old and the new |
| TreeInsert.Finish | fs/ext4/extents.c:845-880 | when some level has taken the change in, the whole tree is well formed with exactly the new run added |
| TreeInsert.RunExactly | fs/ext4/extents.c:241-308 | the leaf that takes a run in stays within its bounds and in order exactly when no block of the run was mapped anywhere in the tree |
| TreeSpine.EdgeWeight | fs/ext4/extents.c:577-613 | a node on the right edge that is full, like all below it there, holds at least what its slots but one hold when closed |
| TreeSpine.SpinePath | fs/ext4/extents.c:639-758 | a change at one level of the right edge keeps the children that are closed above it heavy |
| Extents.ExtentFile.ReadPath | fs/ext4/extents.c:335-411 | the nodes and block numbers from the root to the leaf of a block |
| Extents.ExtentFile.AllocExtent | fs/ext4/extents.c:487-531 | the extent is the allocator's answer to the goal and group asked for, a run that was free; neither the length limit nor the volume's end ever cuts it |
| Extents.ExtentFile.InsertAtLeaf | fs/ext4/extents.c:534-549 | the leaf and its block hold the insertion, or nothing has changed |
| Extents.ExtentFile.SplitLeaf | fs/ext4/extents.c:557-632 | the leaf is cut in two blocks; a leaf cut at its end keeps its slots even when no block is left |
| Extents.ExtentFile.AddIndex | fs/ext4/extents.c:639-758 | the index entry settles at some level or every level up to the root has been cut |
| Extents.ExtentFile.GrowInDepth | fs/ext4/extents.c:764-825 | the tree under the new root has exactly the new run added; at depth 5 or without a block nothing changes |
| Extents.ExtentFile.InsertMapped | fs/ext4/extents.c:831-881 | through merge, splits and growth the tree is well formed with exactly the new run, and owns exactly the blocks taken; appending keeps the right edge heavy, and only a heavy tree grows |
| Extents.ExtentFile.LookupMapped | fs/ext4/extents.c:467-484 | the block that the whole tree maps, or none |
| Extents.ExtentFile.GetBlock | fs/ext4/extents.c:894-965 | a hit and a query change nothing; create adds exactly one free run at the block, the allocator's answer to the goal and group asked for, and owns exactly what was allocated; it fails only without free blocks or at depth 5, and at the end of the file failure leaves the tree as it was |
| Extents.EdgeAdded | fs/ext4/extents.c:658-681 | the level that takes the new right sibling closes a heavy child |
| Extents.EdgeGrown | fs/ext4/extents.c:764-825 | the root grows only when the tree under it is heavy |
| Extents.ExtentFile.MapBlocks | fs/ext4/extents.c:971-1035 | on a mapped block, the run up to the end of its extent or the length asked for, whichever is shorter, which the whole tree maps block by block |
| Extents.StillValid | fs/ext4/extents.c:845-878 | writes to blocks that were free leave the tree's map and ownership alone |
| Extents.AtEndPath | fs/ext4/extents.c:578-581 | a block behind the last mapped one goes to the far right of every node on its path |
| InodeFree.FreedOwned | fs/ext4/inode.c:82-134 | freeing a subtree gives back exactly what it owns, block for block, when buffers reach its leaves, and strictly less otherwise |
| InodeFree.FourBuffersSuffice | fs/ext4/inode.c:26-48 | four buffers free everything exactly for depth at most 4 |
| InodeFree.TooDeep | fs/ext4/inode.c:26-48 | a well-formed tree of depth 5 that is not freed whole |
| InodeFree.ScratchPool.Take | fs/ext4/inode.c:30-38 | the first unused buffer, none exactly when all are in use |
| InodeFree.Truncation.FreeTreeNode | fs/ext4/inode.c:82-134 | the recursion frees the blocks in the stated order, ends, and disturbs no buffer in use further up |
| InodeFree.Truncation.FreeDataBlocks | fs/ext4/inode.c:219-244 | the file is empty, what its tree owned is free again block for block, and nothing is lost exactly when the depth is at most 4 |
| InodeFree.GivenBack | fs/ext4/inode.c:101-131 | blocks owned once and not free are all counted in when freed |
| BlockIo.SectorDevice.ReadSectors | block/blkdev.c:45-69 | chunks of at most 255 sectors read exactly the sectors asked for |
| BlockIo.SectorDevice.WriteSectors | block/blkdev.c:71-95 | chunked writing puts exactly the data there and leaves all other sectors |
| BlockIo.SectorDevice.ReadBlocks | fs/ext4/io.c:65-86 | one request for many blocks gives the bytes of each data block that the sectors stand for |
| BlockIo.SectorDevice.WriteBlocks | fs/ext4/io.c:116-137 | one request for many blocks leaves the sectors standing for the disk that writing block after block gives, and touches no other block |
| BlockIo.WriteBacks | fs/ext4/io.c:116-137 | sectors written at once stand for the same disk as blocks written one after the other |
| FileData.LookupInjective | fs/ext4/extents.c:467-484 | no two logical blocks share a physical block when each block is owned once |
| FileData.TreeLookupOwned | fs/ext4/extents.c:467-484 | a mapped block is the file's data, not one of its tree nodes |
| FileData.FileFrame | fs/ext4/file.c:410-518 | a file does not notice writes to blocks it does not own |
| FileData.MappedKeeps | fs/ext4/file.c:434-470 | mapping a run behind the last block extends the prefix and changes no byte |
| FileData.AppendExactly | fs/ext4/file.c:434-439 | after mapping a run the mapped blocks are a prefix, for some size, exactly when the run began right behind the last one |
| FileData.FewExtents | fs/ext4/extents.c:10-13 | a file has at most as many extents as blocks |
| FileData.StaysLean | fs/ext4/extents.c:764-775 | the tree of a file below 4 GiB never gets deeper than 3 |
| FileData.WriteKeeps | fs/ext4/file.c:491-505 | writing a patched block puts exactly the new bytes over the file, stale bytes beyond the size never showing |
| RegularFile.File.ReadRun | fs/ext4/file.c:375-387 | a request for consecutive blocks is the slice of the file |
| RegularFile.File.ReadPart | fs/ext4/file.c:391-399 | part of a block through the buffer is the slice of the file |
| RegularFile.File.Read | fs/ext4/file.c:328-408 | reading returns exactly the stored bytes from the position up to count or the end, for any count |
| RegularFile.File.MapOne | fs/ext4/file.c:434-439 | asking for a block with create changes no byte, and the mapped blocks stay a prefix |
| RegularFile.File.ProbeRun | fs/ext4/file.c:450-470 | the run found is mapped to consecutive blocks, and failed probes only lose blocks |
| RegularFile.File.WriteRun | fs/ext4/file.c:472-490 | a request for consecutive blocks has the effect of writing block by block: the bytes lie over the file |
| RegularFile.RunWritten | fs/ext4/file.c:472-490 | writing a run of blocks one by one puts their bytes over the file, and so does the request for all of them |
| RegularFile.ShownSlice | fs/ext4/file.c:375-387 | the blocks a request gives are the slice of the file that lies there |
| RegularFile.File.WritePart | fs/ext4/file.c:491-510 | read, patch and write puts exactly the bytes in; a new block is zero around them |
| RegularFile.File.Write | fs/ext4/file.c:410-518 | at a position within the file the bytes become old, buffer, old; it fails only without free blocks, and then the length stays and exactly the bytes counted as written lie over the file; blocks taken belong to the file or are listed as lost |
| RegularFile.MovedTwice | fs/ext4/file.c:425-511 | ownership and the blocks touched add up over the rounds of a write |
| VolumeState.NoSharing | fs/ext4/extents.c:831-881 | over all files of a safe volume no two logical blocks share a physical block and no mapped block is free |
| VolumeState.OwnedApart | fs/ext4/balloc.c:320-531 | each block belongs to at most one file, and to none if it is free or held elsewhere |
| VolumeState.ChangedSafe | fs/ext4/file.c:410-518 | a write keeps the volume safe and the bytes of all other files |
| VolumeState.EmptiedSafe | fs/ext4/inode.c:219-244 | so does a truncation |
| VolumeState.ElsewhereSafe | fs/ext4/balloc.c:538-648 | so do allocation, freeing and writing by other parts of the file system |
| VolumeState.StepSafe | fs/ext4/extents.c:894-965 | every step keeps every block accounted for exactly once and every file well formed |
| VolumeState.RunSafe | fs/ext4/extents.c:894-965 | and so does every run from a safe volume |
| VolumeState.RunSpares | fs/open.c:279-317 | over every run that does not write or truncate it a file keeps its bytes, whatever happens to the others |
| Volume.Mount.constructor | fs/ext4/super.c:777-802 | a volume without files is safe, what is not free being held by its metadata |
| Volume.Mount.Read | fs/open.c:299-317 | returns the slice of the file's bytes and changes nothing |
| Volume.Mount.Write | fs/open.c:279-297 | overlays the file's bytes, keeps the volume safe and all other files' bytes, and fails only without free blocks |
| Volume.Mount.Truncate | fs/ext4/file.c:306-326 | empties the file, gives back every block of it, and keeps all other files |
| Volume.Mount.Create | fs/ext4/inode.c:272-334 | adds an empty file and keeps all others |
| Volume.Mount.Grab | fs/ext4/balloc.c:538-542 | a block for other purposes touches no file |
| Volume.Mount.Release | fs/ext4/balloc.c:558-648 | nor does giving it back |
| Descriptors.StepPositions | fs/open.c:161-317 | every operation keeps all descriptors within their files, a truncating open exactly if the other descriptors of its file are at 0 |
| Descriptors.StepRefines | fs/open.c:279-317 | with descriptors within their files each operation is the operation on byte sequences with positions, and the volume stays safe |
| Descriptors.RunPositions | fs/ext4/file.c:306-326 | over every run descriptors stay within their files exactly if every truncating open finds the others at 0 |
| Descriptors.RunRefines | fs/open.c:279-317 | on these runs every open, read, write and close refines the one on byte sequences, and files keep a mapped prefix |
| Descriptors.Stranded | fs/ext4/file.c:316-317 | after two blocks written and a truncation by another descriptor, no run for the next block gives a file with a mapped prefix |
| OpenFiles.FileTable.FindSlot | fs/open.c:15-24 | the first unused descriptor, or none |
| OpenFiles.FileTable.Attach | fs/open.c:161-186 | the descriptor starts at 0, and the file is emptied when asked to |
| OpenFiles.FileTable.Open | fs/open.c:11-187 | the first unused descriptor, on the file found or a new one; errors change nothing |
| OpenFiles.FileTable.Close | fs/open.c:189-213 | the descriptor is unused; all files stay as they are |
| OpenFiles.FileTable.Read | fs/open.c:299-317 | returns the slice at the descriptor's position, which moves behind it; a bad descriptor changes nothing |
| OpenFiles.FileTable.Write | fs/open.c:279-297 | overlays the file at the descriptor's position, which moves behind it and stays within the file; it fails only for a bad descriptor or without free blocks |
| OpenFiles.Strand | fs/open.c:279-297 | a run on which a descriptor is left behind the end of its file, and the file is lost with its next write |
| LegacyMap.LookupInOrder | fs/ext4/file.c:81-272 | the mapping is the direct pointers, the block of pointers and the second-level blocks one after the other, and ends there |
| LegacyMap.Unnoticed | fs/ext4/file.c:113-123 | writing a block the inode does not own changes neither its map nor what it owns |
| LegacyMap.PutDirect | fs/ext4/file.c:82-96 | a direct block maps exactly its logical block |
| LegacyMap.PutIndirect | fs/ext4/file.c:112-123 | a fresh pointer block changes no mapping |
| LegacyMap.PutInIndirect | fs/ext4/file.c:131-145 | an entry in it maps exactly one logical block |
| LegacyMap.PutDouble | fs/ext4/file.c:184-195 | a fresh first-level block changes no mapping |
| LegacyMap.PutSecond | fs/ext4/file.c:212-235 | nor does a fresh second-level block |
| LegacyMap.PutInSecond | fs/ext4/file.c:245-261 | an entry in it maps exactly one logical block |
| LegacyInode.Inode.GetBlock | fs/ext4/file.c:52-273 | create changes only the mapping of the block asked for; all blocks taken belong to the inode, also on failure, which happens only without free blocks, and come from the group asked for while it has any; beyond both indirect ranges nothing is mapped |
| LegacyInode.Inode.FreeUnder | fs/ext4/inode.c:161-177 | a pointer block and what it points to become free, each block once |
| LegacyInode.Inode.FreeUnderAll | fs/ext4/inode.c:184-204 | the same for all second-level blocks |
| LegacyInode.Inode.FreeAll | fs/ext4/inode.c:136-217 | every data and pointer block becomes free exactly once and the inode owns nothing |
| DirBlock.AddAtEntries | fs/ext4/dir.c:848-863 | adding puts one entry in right behind the record that had room, keeps the block tiled and all other entries in order |
| DirBlock.AddAtSplits | fs/ext4/dir.c:848-863 | the record with room keeps its entry and all bytes outside it are unchanged |
| DirBlock.SlackExactly | fs/ext4/dir.c:829-848 | a record has room for a new entry exactly when its bytes can be tiled by its own entry and the new one |
| DirBlock.RecordBytes | fs/ext4/dir.c:848-863 | a record byte for byte: inode and length little-endian, length and type of the name, the name |
| DirBlock.RemoveAtEntries | fs/ext4/dir.c:937-956 | clearing the first record or merging into the one before takes exactly that entry out and keeps the block tiled |
| DirBlock.TilesFrame | fs/ext4/dir.c:632-653 | tiling and entries of a region depend on its bytes only |
| Directory.ScanBlock | fs/ext4/dir.c:631-653 | the first record of the name, and the one before it, or the name is not in the block |
| Directory.ScanRoom | fs/ext4/dir.c:828-873 | the first record with enough slack, or no record has enough |
| Directory.InsertInBlock | fs/ext4/dir.c:848-863 | the field writes give the block with the entry added, byte for byte |
| Directory.EraseInBlock | fs/ext4/dir.c:937-956 | the field writes give the block with the entry removed, byte for byte |
| Directory.AddThenFind | fs/ext4/dir.c:668-878 | after adding, a name is found exactly if it was or is the new one, and unique names stay unique |
| Directory.AddStaysWithin | fs/ext4/dir.c:848-863 | adding changes the bytes of one record, which keeps its entry |
| Directory.RemoveStaysWithin | fs/ext4/dir.c:937-956 | removing changes one record header |
| Directory.RemoveThenFind | fs/ext4/dir.c:887-971 | removing drops exactly one entry, and with unique names the name is gone |
| Directory.OneAnswer | fs/ext4/dir.c:543-584 | with unique names every way of looking gives the same inode |
| NameHash.Collide | fs/ext4/htree.c:63-161 | the names "vff" and "vgg" have the same hash, with signed and with unsigned characters |
| NameHash.TwoVersions | fs/ext4/htree.c:63-161 | the values of the two versions for a name of one character above 127 |
| Directory.Dir.Find | fs/ext4/dir.c:528-658 | succeeds exactly when some live record has the name, whatever leaf the index names; the answer is the first in that leaf, or else the first of all |
| Directory.Dir.Add | fs/ext4/dir.c:753-877 | adds exactly one entry, to the first record with room of the first block with room; only the bytes of that record change there; the directory grows only when no block has room, and it fails only when it cannot grow either |
| Directory.Dir.Grow | fs/ext4/dir.c:801-873 | a fresh block is one free record that takes the entry |
| Directory.Dir.Remove | fs/ext4/dir.c:887-971 | removes the first entry that find would report, and nothing else; only the header of one record changes |
| Directory.Dir.List | fs/ext4/dir.c:981-1037 | visits exactly the live entries in order |
| HTree.PickLeaf | fs/ext4/htree.c:220-233 | the one slot whose hash range holds the hash |
| HTree.FindSlot | fs/ext4/htree.c:235-241 | the first slot of a block, or none |
| HTree.OthersRouted | fs/ext4/htree.c:602-607 | hashes of other slots keep their slot when one is split |
| HTree.SplitRouted | fs/ext4/htree.c:555-608 | routing is exact after the split exactly when the hashes on both sides of the cut differ |
| HTree.FewEntries | fs/ext4/htree.c:398-399 | a block holds fewer entries than the shared array, so its limit never strikes |
| HTree.HalvesFit | fs/ext4/htree.c:525-545 | with names of at most 31 bytes either half packs into at most 4088 bytes |
| HTree.Collect | fs/ext4/htree.c:384-410 | the items are the block's entries in order with their hashes |
| HTree.SortItems | fs/ext4/htree.c:412-424 | sorted by hash, and the same items |
| HTree.PackLeaf | fs/ext4/htree.c:426-449 | the packed block is tiled and its entries are the items in order |
| HTree.CollectPacked | fs/ext4/htree.c:384-449 | packing items into a leaf and collecting that leaf gives the items back in order |
| HTree.IndexedDir.Lookup | fs/ext4/dir.c:543-584 | with exact routing one leaf decides whether any leaf has the name |
| HTree.IndexedDir.HalveLeaf | fs/ext4/htree.c:519-546 | the two blocks hold exactly the old entries and the new one, in order of hash |
| HTree.IndexedDir.InsertSlot | fs/ext4/htree.c:602-607 | the new slot follows the split one and all others keep their order |
| HTree.IndexedDir.SplitLeaf | fs/ext4/htree.c:477-617 | table sorted, entries conserved, other leaves untouched; routing stays exact exactly when the cut separates hashes |
| HTree.AfterSplit | fs/ext4/htree.c:534-608 | the directory after a split satisfies the index invariant exactly under that condition |
| HTree.SplitColliding | fs/ext4/htree.c:477-617 | a split between names of one hash, after which the index no longer leads to both |
| Dcache.CountHeld | fs/dcache.c:118-124 | a count that moves with the outside references stays right |
| Dcache.AllocKeeps | fs/dcache.c:38-73 | a new dentry and the reference on its parent keep all counts right |
| Dcache.FillLinks | fs/dcache.c:210-224 | a dentry that gets an inode is linked at the head of its parent's list unless it was there before, and nothing else changes |
| Dcache.FillKeeps | fs/dcache.c:210-224 | linking a dentry under its parent keeps counts and sibling lists right: every dentry with an inode but the roots is listed exactly once, under its parent |
| Dcache.RootKeeps | fs/ext4/super.c:909-926 | a root that is its own parent keeps all counts and lists right |
| Dcache.FreeSlotKeeps | fs/dcache.c:143-181 | freeing an idle dentry leaves its parent's reference as the only thing still to be dropped |
| Dcache.Dentries.Alloc | fs/dcache.c:29-78 | a free slot with count 1 and a reference on the parent; none exactly when the pool is full or the name has 32 bytes or more |
| Dcache.Dentries.Lookup | fs/dcache.c:87-110 | the first child of that name in the list, with one more reference, or no linked child has the name |
| Dcache.Dentries.Get | fs/dcache.c:118-124 | one more reference |
| Dcache.Dentries.Instantiate | fs/dcache.c:210-224 | inode set and linked once, at the head of the parent's list; all other lists and fields stay as they are |
| Dcache.FillThenFind | fs/dcache.c:87-224 | a lookup of the name under the parent finds the dentry just filled in |
| Dcache.Dentries.MakeRoot | fs/ext4/super.c:909-926 | a fresh dentry that is its own parent, unless the pool is full |
| Dcache.Dentries.Put | fs/dcache.c:130-183 | one reference less; frees exactly the chain of ancestors nobody else refers to, and ends |
| Components.NextName | fs/namei.c:40-67 | the next name: without slashes, not empty, between the slashes before it and a slash or the end; none exactly when only slashes are left |
| Components.CleanNames | fs/namei.c:56-63 | no name of a path is empty or holds a slash |
| Components.NoNames | fs/namei.c:50-54 | a path has no names exactly when it consists of slashes |
| Components.OneName | fs/namei.c:56-66 | a path without slashes is one name |
| Components.NamesJoin | fs/namei.c:40-67 | the names of s/t are those of s followed by those of t |
| PathWalk.OneDentry | fs/dcache.c:87-110 | when no two dentries of a directory share a name, the place of a dentry tells which it is |
| PathWalk.Survives | fs/dcache.c:130-183 | nothing of a pool is freed while its outside references remain |
| PathWalk.Vanished | fs/dcache.c:130-183 | what was allocated since is freed once no reference to it remains |
| PathWalk.Restored | fs/namei.c:168-175 | with the same outside references the pool has the same dentries, counts and children |
| PathWalk.Walker.Up | fs/namei.c:133-140 | ".." goes to the parent, and stays at the root; the place loses its last name |
| PathWalk.Walker.Down | fs/namei.c:142-180 | a name leads to the cached or new child with the inode its directory names, one name further, or nothing is kept; the pool runs full only for a name that is not cached |
| PathWalk.Walker.PathLookup | fs/namei.c:82-191 | success takes one reference on the result and reaches what an uncached walk reaches, at the place that the names lead to; failure keeps none, and unless the pool is too small it means that the uncached walk fails too or that a name has 32 bytes or more; no two dentries of a directory come to share a name |
| PathWalk.JoinedPath | fs/namei.c:82-191 | the walk of s/t is the walk of t from where the walk of s ends |
| PathWalk.LookupInParts | fs/namei.c:82-191 | looking up s/t at once or in two parts succeeds alike and ends at the same inodes, and at the very same dentry while the first result is held |
| PathWalk.LookupAgain | fs/namei.c:82-191 | a second walk over a path whose result is held gives the same dentry with one reference more, and never finds the pool full unless the path has ".." in it |
| PathWalk.LoseLongName | fs/dcache.c:50-59 | a name of 32 bytes that its directory holds and the walk does not find |
| Calendar.SameSecond | lib/time.cpp:33-76 | a second belongs to one valid date only |
| Calendar.WholeYear | lib/time.cpp:39-72 | the months of a year make up its days, leap or not |
| Calendar.DayByFormula | drivers/rtc.cpp:74-83 | the day number of every valid date is the closed Gregorian formula, which uses no table |
| Calendar.BreakUnixTime | lib/time.cpp:33-76 | the date is valid, has exactly that many seconds since 1970, and by the Gregorian formula lies there |
| Calendar.UnixTime | drivers/rtc.cpp:70-88 | the seconds since 1970 in 32 bits by the Gregorian formula, with the month forced into 1 to 12 and day 0 to 1; before 1970 only the year counts as none |
| Calendar.ThereAndBack | lib/time.cpp:33-76 | every 32-bit second survives breaking down and putting together |
| Calendar.BackAndThere | drivers/rtc.cpp:70-88 | every valid date in that range survives the other way round |

## Left out

- RegularFile.File.Write: a position behind the end of the file is excluded; OpenFiles.FileTable.Write needs no such condition, because descriptors never get there on the runs of Descriptors.RunRefines. What a write from there does to a file is described only as far as OpenFiles.Strand goes.
- Volume.Mount.Write: the same.
- OpenFiles.FileTable.Write: a write that ends behind 4 GiB is excluded, since the code uses 32 bits of the position. Access modes are not checked by the code and are not part of this model, apart from the one that decides whether an open truncates.
- OpenFiles.FileTable.Open: path lookup and the making of the directory entry are elsewhere; their failure is one error. References on dentries and inodes are left out.
- Extents.ExtentFile.GetBlock: inserting below the first key of an index root is excluded; the code does not lower that key. Files never need it while their descriptors stay within them. A goal is excluded if a free run of that length would reach a mapped block. What a failed insertion in the middle of a file leaves behind is not stated.
- Extents.ExtentFile.InsertMapped: the same.
- Extents.ExtentFile.MapBlocks: covers mapped blocks only; on a miss the code reads a variable it has not set.
- Extents.ExtentFile.ReadPath: path nodes are values; a node is loaded into a buffer when it is changed. The magic numbers of node headers and damaged trees are not part of this model.
- HTree.IndexedDir.SplitLeaf: promotion of a full root to a second level and failure to allocate the new leaf are left out, as is insertion into a leaf with room (`ext4_htree_try_insert_leaf`). The hash is a parameter of the directory; NameHash has the versions the code uses.
- HTree.IndexedDir.Lookup: tables of one level only, as in the split.
- Volume.Mount.Create: the allocation of the inode and the directory entry of the new file are not part of it.
- Directory.Dir.Add: turning a linear directory into an indexed one is left out; directory blocks are numbered from 0 without gaps, and whether a new block can be had is a parameter.
- PathWalk.Walker.PathLookup: directories do not change during a walk and reading an inode succeeds; inode reference counts are left out.
- Disk I/O and scratch memory succeed everywhere, except for the buffers of truncation.
- The bitmaps, group descriptors and superblock total belong to the allocator and are not blocks of the disk that files live on; what each side owns is kept apart by `Conserved`.
- Tree nodes and pointer blocks are records, not bytes; 48-bit block numbers are unbounded numbers. No extent reaches the last of the 2^32 logical blocks, so `ee_block + ee_len` does not wrap.
- The block total that mkfs itself writes into the superblock, mount-time repair of damaged counts and other image layouts than those of mkfs.
- Calendar.UnixTime: reading the clock's registers, their BCD form and the century are left out, as is the weekday.
- `i_blocks`, timestamps, ownership, permissions, directory counts in descriptors, and the writing of inodes.
- mkdir, rmdir, unlink and rename.
- Drivers, interrupts, console, shell, system calls and scheduling.
