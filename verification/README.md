# A model of the ext4tc reader

ext4tc is a file-system plug-in that reads ext2, ext3 and ext4 partitions: it finds partitions on the
disks, mounts the ones it understands, lists directories and copies files out. It never writes to a
partition. This project models that reader in Dafny and proves what its pieces are supposed to do. Each
piece is a stateful, fast form of a simple mathematical function, and the main theorems say exactly
when the two agree.

| file | what it models |
|---|---|
| `Bytes.dfy`, `Volume.dfy` | bytes, C integer conversions, a partition as an immutable byte device, inode fields |
| `IndirectMap.dfy` | direct, indirect and double-indirect addressing: the pointer chase and the sequential cursor |
| `ExtentTree.dfy` | extent nodes, the flattened tree, the cold walk, the binary search |
| `BlockMap.dfy` | the abstract block map of a file, over both layouts |
| `Blocks.dfy` | the `blocks` object: cursor, path cache, ownership of node buffers |
| `GroupTable.dfy`, `Mounting.dfy` | superblock, group descriptor table, mounting |
| `InodeCache.dfy` | the FIFO of cached inode tables over whole runs |
| `Directory.dfy`, `FileContents.dfy` | directory records; what is read for a file and the arithmetic that cuts it |
| `Holes.dfy` | a file's contents by the format, holes included, and when they are what is read |
| `Ext2Partition.dfy` | inode lookup, reading a directory, copying a file |
| `CopyProtocol.dfy`, `CopyOfFile.dfy` | the copying thread and the polling thread as one step system; `read_file` as a run of it |
| `PartitionTable.dfy`, `ExtPartitions.dfy` | MBR, EBR chain, linked list; counting and collecting what mounts |
| `IdMap.dfy`, `RootListing.dfy`, `DeviceNames.dfy` | the flattened number map, the root listing, printing and parsing names |
| `SystemScan.dfy` | the scan of all disks, up to the finished number map |
| `NameLookup.dfy`, `PathLookup.dfy` | listing a directory and opening a file by path: what the walks mean, and running them on a partition |
| `GetFile.dfy` | `FsGetFile` from the remote name to the copy |
| `Layouts.dfy` | the on-disk structures written out field by field, and that every reader inverts them |

The on-disk formats are those of the Linux kernel document "ext4 Data Structures and Algorithms"
(headings "Direct/Indirect Block Addressing", "Extent Tree" and "Meta Block Groups") and section 5.2.1 of the UEFI
Specification (legacy master boot record).

Conventions. The disk is a function from byte addresses to bytes. Every device read and write may fail, the
reads that lookups make of pointer blocks and extent nodes included. The objects count their failures, so a
contract can say that an error is reported if and only if something the code notices failed. A lookup whose
read fails does one of two things the code does not notice: it follows a null buffer, which ends it (`Died`,
`lookupFaults`, `faulted`, `Crashed`), or, for the double-indirect block, it leaves the previous address in
use. For the latter, contracts take the set `lost` of the requests at which that read fails, should it be
needed, and hold for every such set (path walks take one such set for every directory).
Field loads, shifts and sums are computed in the width the C code uses wherever that can make a difference
(`U32`, `U64`, `PromotedHigh`). Objects that the original updates in place are classes with the same fields; `nodeReads`, `live` and `released` in `Blocks` are
accounting that lets "released exactly once" be stated, `peak` the largest number allocated at once.

Where the code does less than its design promises, the code is modelled as it is and a lemma, usually with
a name ending in `Exact`, says for which inputs the promise holds, in both directions:

* what is read is the file if and only if every block is read right (`CopyExact`). If the file is addressed
  right, only holes can go wrong, which the code does not know: each must happen to read as zeros. In the
  pointer layout, on file systems with blocks of more than 1024 bytes, that means that no block pointer may
  be zero (`ZeroPointerExact`, `HoleIsReadAsBlockZero`);
* an extent file is addressed right if and only if its extents start below block 2^32, as 48-bit addresses
  lose their high 16 bits (`ExtentsAddressedExact`, `CodeAddrExact`);
* a non-extent file is addressed right if and only if the block count computed from the low 32 bits of its
  size does not make the cursor drop a buffer too early (`PointersAddressedExact`, `SequentialReadExact`);
  whatever that count is, all requests but the very last double-indirect slot stay in bounds
  (`AlwaysInBounds`, `InBoundsExact`), and every answer is a block of the file (`NeverLeavesFile`);
* a failed read of the double-indirect block is never reported, so error 0 and an OK result also come with wrong
  bytes. Over distinct blocks a file is addressed right in spite of such failures if and only if none of them
  hits a request that loads the block; with the true block count there is one such request, 12 + A
  (`LostReadsExact`, `LostReadSpoils`, `OkMeansTheFileExact`). From there on every block is
  read as many places back as reads in a row have failed (`LaggingAnswer`): all of them, and block 11 + A stands for the rest of the file
  (`UnreadableDoubleIndirect`); one, and the rest is shifted by a block (`DoubleIndirectLostOnce`);
* a failed read of another pointer block or of an extent node makes the copying thread fault in mid-file, with
  the error word at 0 and an incomplete file (`ReadFile`, `CrashHasCause`, `CrashIsNoResult`);
* block reads are right for 512-byte sectors only (`ShiftByNineExact`), and the superblock is found only with them
  (`SuperBlockSectors`);
* a group descriptor is looked for in its place if and only if blocks have more than 1024 bytes and it is in
  the very first block of descriptors, or descriptors fill their blocks and META_BG has not moved it
  (`DescriptorPlaceExact`); otherwise other data is taken for it, such as the superblock
  (`SuperblockTakenForTable`);
* all groups are counted if and only if there are at most 2^32 data blocks, as the high half of the block
  count is ignored; inodes behind the counted groups are looked up outside the table (`MountedGroups`,
  `EveryInodeCounted`);
* inodes are taken to be as long as the superblock's field says, which a file system of revision 0 leaves unset: an
  inode is the format's if and only if the field holds its size (`MountedInodeIsFormats`, `OldRevision`);
* the destructor of the mounted state counts groups its own way: it releases every cached table and nothing else
  if and only if it counts as many as there are slots, which on a consistent file system means between 1 and 2^32
  data blocks (`ReleaseTables`, `ReleasesExactly`, `DestructorCounts`);
* descriptors of more than 64 bytes are copied past the end of their array (`Mount`, result `overrun`);
* the logical volumes collected are the format's if and only if their positions are below sector 2^32, no boot
  record on the way is without a volume and no volume lies behind a link that is not of type 0x5
  (`VolumesExact`, `EmptyAndOtherLinks`); link records carry a wrong offset from the
  second boot record on (`LinkOffsetExact`);
* an extent file cancelled before its first block makes the destructor follow a null path array
  (`ReadFile`, result `faulted`), as does an empty directory that uses extents (`GetDirEntry`);
* a path component that does not exist is skipped: by an open from the second component on, so that the file of the
  shorter path is opened (`MissingComponentIsSkipped`), by a listing everywhere (`ListingSkipsMissing`);
* one unreadable superblock next to a mountable partition makes the collecting pass follow a deleted
  pointer (`Ext2PartitionsInit`, result `fault`);
* a partition number that is in range but not listed resolves to some other partition (`LookupExact`,
  `ZeroPassesTheCheck`);
* a deleted directory entry hides a live one of the same name: from an open in the file's own directory,
  from both walks on the way to it (`LiveFileOpensExact`, `ListingReachesExact`).

## Model

| member | source | states |
|---|---|---|
| IndirectMap.SingleStepRefines | ext4-utils/fs/ext4/blocks.cpp:26-48 | a request below 12 + A by a cursor in step is answered like the pointer chase, and the cursor stays in step unless the index inside the block has reached the believed block count |
| IndirectMap.DoubleStepRefines | ext4-utils/fs/ext4/blocks.cpp:102-125 | the same in the double-indirect range, across every load and drop of the inner block and the early bump of the outer index |
| IndirectMap.InBoundsExact | ext4-utils/fs/ext4/blocks.cpp:115-119 | for a cursor in step, all buffer reads are in bounds except for the last double-indirect slot, and only for that one they are not |
| IndirectMap.QuietRun | ext4-utils/fs/ext4/blocks.cpp:86-127 | any in-order run that meets no early drop is answered like the pointer chase throughout and leaves the cursor in step |
| IndirectMap.CursorExact | ext4-utils/fs/ext4/blocks.cpp:26-48 | for every believed block count and every run 0..n-1 over distinct blocks: all answers are right if and only if the run ends before the first wrong request, which is given in closed form |
| IndirectMap.AlwaysInBounds | ext4-utils/fs/ext4/blocks.cpp:86-127 | whatever block count the cursor believes in, front-to-back requests read inside the buffers up to the last but one slot |
| IndirectMap.TrueCountIsRight | ext4-utils/fs/ext4/blocks.cpp:86-127 | with the true block count all requests of the file are answered like the pointer chase, blocks distinct or not |
| Layouts.ChaseIsTheList | ext4-utils/fs/ext4/blocks.cpp:86-127 | for a file laid out from a list of block numbers, twelve in the inode, A in the indirect block and the rest through the double-indirect block, each a little-endian word, logical block k of the pointer chase is the k-th number |
| Layouts.PointerAt | ext4-utils/fs/ext4/blocks.cpp:33-33 | entry i of a block that holds encoded numbers is the i-th of them |
| Layouts.InodeFields | ext4-utils/fs/ext4/ext4.h:569-600 | from an inode written out in the order of its fields, size, layout flag, mode and block pointers are read back |
| IndirectMap.NeverLeavesFile | ext4-utils/fs/ext4/blocks.cpp:86-127 | whatever the block count and whichever reads fail, every answer is the pointer chase of that request or of an earlier one |
| IndirectMap.LostLoadsExact | ext4-utils/fs/ext4/blocks.cpp:104-107 | over distinct blocks a run is right in spite of failed reads of the double-indirect block if and only if it would be without them and none of them hits a request that loads that block |
| IndirectMap.LaggingAnswer | ext4-utils/fs/ext4/blocks.cpp:104-113 | with the true block count, what every request of the file is answered whichever reads fail: the block as many places back as reads in a row have failed from the first one on |
| IndirectMap.UnreadableDoubleIndirect | ext4-utils/fs/ext4/blocks.cpp:104-107 | if the double-indirect block can never be read, every request behind it is answered with block 11 + A |
| IndirectMap.DoubleIndirectLostOnce | ext4-utils/fs/ext4/blocks.cpp:104-113 | if its first read alone fails, every request behind it is answered with the block before |
| IndirectMap.DriftRun | ext4-utils/fs/ext4/blocks.cpp:115-120 | with the outer index reset to 0 mid-block, the rest of the current inner block is still answered right |
| IndirectMap.WrongInner | ext4-utils/fs/ext4/blocks.cpp:115-116 | with the outer index behind, the first request of the next inner block is wrong |
| ExtentTree.CodeAddrExact | ext4-utils/fs/ext4/blocks.cpp:149-150 | the assembled address always equals the low word, hence is the format's address if and only if the high half is 0 |
| ExtentTree.SearchIsLastNotAfter | ext4-utils/fs/ext4/blocks.cpp:189-207 | in a sorted node the search picks the last entry not starting after the block |
| ExtentTree.BinSearch | ext4-utils/fs/ext4/blocks.cpp:209-230 | the loop computes that search |
| ExtentTree.FlattenOrdered | ext4-utils/fs/ext4/blocks.cpp:130-186 | the extents of a well-formed tree of any depth, read left to right, are sorted and disjoint |
| Layouts.LeafEntry | ext4-utils/fs/ext4/ext4_extents.h:74-79 | an extent written to a leaf is read back, 48-bit start, length and whether it is written included |
| Layouts.IndexEntry | ext4-utils/fs/ext4/ext4_extents.h:85-91 | a child written to an index node is read back |
| Layouts.FlattenOfStored | ext4-utils/fs/ext4/blocks.cpp:130-186 | a stored tree of any depth whose entries are in order is well formed and flattens to the extents it was made from |
| Layouts.ExtentsOfFile | ext4-utils/fs/ext4/ext4_extents.h:96-104 | so the extents of a file are those its tree was made from |
| ExtentTree.WalkFindsCovering | ext4-utils/fs/ext4/blocks.cpp:144-183 | on a well-formed tree of any depth, an extent of the flattened list that covers a block is the one the root-to-leaf walk selects |
| ExtentTree.SelectedCoversExact | ext4-utils/fs/ext4/blocks.cpp:75-83 | although lengths are never consulted, the selected extent covers the block if and only if some extent of the tree does |
| Volume.SectorReadIsBlock | ext4-utils/fs/ext4/blocks.cpp:32-32 | the sector arithmetic reads exactly the named file-system block |
| Volume.ShiftByNineExact | ext4-utils/fs/ext4/blocks.h:48-48 | the byte address is that of the block if and only if sectors have 512 bytes (or the block is 0) |
| Mounting.SuperBlockSectors | ext4-utils/disk-utils/partition_linux_ext2.cpp:39-39 | the two sectors from sector 2 on start at the superblock, and are it, if and only if sectors have 512 bytes |
| BlockMap.CursorBlockCountExact | ext4-utils/fs/ext4/blocks.h:52-52 | the constructor's block count is the file's if and only if the rounded-up size fits in 32 bits |
| BlockMap.SequentialReadExact | ext4-utils/disk-utils/partition_linux_ext2.cpp:354-383 | the requests for a non-extent file over distinct blocks, front to back, are answered like the pointer chase if and only if the file ends before the first request the miscounted cursor gets wrong; always when its size fits in 32 bits |
| BlockMap.ColdLookupIsMap | ext4-utils/fs/ext4/blocks.cpp:65-84 | on a well-formed tree the lookup of a mapped block returns start plus distance into the extent that covers it if and only if that extent starts below block 2^32 |
| BlockMap.ExtentsAddressedExact | ext4-utils/fs/ext4/blocks.cpp:181-182 | all mapped blocks of an extent file are found if and only if every written extent that holds one starts below block 2^32 |
| BlockMap.PointersAddressedExact | ext4-utils/fs/ext4/blocks.h:52-52 | whichever reads fail, a pointer file is addressed right if and only if the cursor's run over it is right |
| BlockMap.SmallPointerFiles | ext4-utils/fs/ext4/blocks.h:52-52 | so without failures always when its rounded-up size fits in 32 bits |
| BlockMap.LostReadsExact | ext4-utils/disk-utils/partition_linux_ext2.cpp:354-383 | a file of distinct blocks is addressed right in spite of failed reads of the double-indirect block if and only if it is without them and no load hits one; if its size fits in 32 bits, if and only if it needs no such block or the read at request 12 + A succeeds |
| BlockMap.TargetInFile | ext4-utils/fs/ext4/blocks.cpp:86-127 | right or wrong, what is read for a pointer file are blocks of the file |
| BlockMap.CoveringIsUnique | ext4-utils/fs/ext4/blocks.cpp:76-82 | at most one extent of an ordered list covers a block, so the block map is well defined |
| BlockMap.TargetIsMap | ext4-utils/fs/ext4/blocks.cpp:50-60 | in a file addressed right, of either layout, every mapped block is found |
| BlockMap.ReadableFiles | ext4-utils/disk-utils/partition_linux_ext2.cpp:354-383 | all requests are answered for extent files without holes and for all pointer files that stop short of the last double-indirect slot, whatever their size and whichever reads fail |
| Blocks.Blocks.constructor | ext4-utils/fs/ext4/blocks.h:43-59 | a new object is at the start of the file with nothing buffered and nothing allocated |
| Blocks.Blocks.IndirectBlkNr | ext4-utils/fs/ext4/blocks.cpp:26-48 | the in-place update is one step of the cursor about which the refinement is proved, unless the pointer block has to be read and cannot be: then a null buffer is indexed |
| Blocks.Blocks.GetNonExtentBlk | ext4-utils/fs/ext4/blocks.cpp:86-127 | likewise for the whole pointer-layout request; an error and an unchanged cursor beyond the capacity and when the double-indirect block is needed and cannot be read; only a request that has to read a pointer block can die |
| Blocks.ReplaceKeepsPathOk | ext4-utils/fs/ext4/blocks.cpp:151-165 | replacing a child keeps "every level caches exactly the block its parent level names", whatever stale nodes lie below, and swaps exactly one live buffer |
| Blocks.Blocks.ReplaceChild | ext4-utils/fs/ext4/blocks.cpp:151-165 | the read-and-replace branch does that in place; as the new node is read before the displaced one is released, `depth` + 1 nodes are allocated at once exactly if every level below the root held one; when the read fails the displaced node is released all the same and a null header is left |
| Blocks.Blocks.FindExtent | ext4-utils/fs/ext4/blocks.cpp:130-186 | from any cache state, the path ends in the leaf a cold walk reaches, with its slot and address, unless a node cannot be read |
| Blocks.Blocks.GetExtentBlk | ext4-utils/fs/ext4/blocks.cpp:65-84 | the cache is transparent: any request in any order equals the cold lookup unless it dies on an unreadable node; a bad root magic number is an error |
| Blocks.Blocks.GetExt2BlkNr | ext4-utils/fs/ext4/blocks.cpp:50-60 | in either layout the answer is the block the file's addressing settles on, right or wrong, which for a file addressed right is the format's wherever the format maps one, and the object is ready for the next block; no address at all exactly while the double-indirect block cannot be read; it dies only on a pointer block that is not buffered or below an extent root |
| Ext2Partition.Ext2Partition.LookUp | ext4-utils/disk-utils/partition_linux_ext2.cpp:356-360 | as the error code is never below 0, the caller goes on with the address it has, and so always with the block the file's addressing settles on |
| Blocks.Blocks.LiveIsBounded | ext4-utils/fs/ext4/blocks.cpp:130-186 | between requests at most `depth` node buffers are allocated, all of them exactly when every level holds one, and never at any moment more than `depth` + 1 |
| Blocks.Blocks.RootNeverHeld | ext4-utils/fs/ext4/blocks.h:75-78 | below level 0 the path holds exactly the live heap buffers, one each, and never the inode's own node |
| Blocks.Blocks.Flush | ext4-utils/fs/ext4/blocks.h:63-82 | after destruction every node buffer ever read has been released exactly once |
| Layouts.SuperblockFields | ext4-utils/fs/ext4/ext4.h:936-960 | the 32-bit fields of a superblock written as 256 words are read back from their places |
| Layouts.SuperblockHalves | ext4-utils/fs/ext4/ext4_sb_info.cpp:34-41 | so are magic number, inode size and descriptor size, the last being 32 without the 64BIT feature |
| Layouts.SuperblockFeatures | ext4-utils/fs/ext4/ext4_sb_info.cpp:34-34 | and the feature bits |
| Layouts.GroupDescriptorFields | ext4-utils/disk-utils/partition_linux_ext2.cpp:130-136 | the inode table's block is the third word of a group descriptor, with the eleventh above it on 64-bit file systems |
| GroupTable.GroupCountExact | ext4-utils/fs/ext4/ext4_sb_info.cpp:45-47 | from the low half of the block count, the group count is ceil((blocks - first) / per group) if and only if there are between 1 and 2^32 data blocks, and never more with any data block |
| GroupTable.TableFitsInGdbBlocks | ext4-utils/fs/ext4/ext4_sb_info.cpp:44-48 | all group descriptors fit in gdb_count blocks for any descriptor size up to a block, and not in fewer |
| GroupTable.TableLocationExact | ext4-utils/disk-utils/partition_linux_ext2.cpp:80-81 | block 1 is the block after the superblock's if and only if the superblock lies in block 0 |
| GroupTable.DescriptorPlaces | ext4-utils/fs/ext4/ext4_sb_info.cpp:67-71 | for every position of a descriptor, when one run from block 1 on comes to where the format puts it, behind the superblock or in a meta group of its own |
| GroupTable.FillGroupDescriptorTable | ext4-utils/fs/ext4/ext4_sb_info.cpp:52-73 | no read leaves the buffer; some copy leaves the array of 64-byte structures if and only if descriptors are longer than that; otherwise every descriptor is stored |
| GroupTable.ReadGroupDescriptors | ext4-utils/disk-utils/partition_linux_ext2.cpp:69-95 | descriptor i as stored is the disk's bytes at block 1 plus i descriptors, unless the device fails or the copies overrun |
| Mounting.Mount | ext4-utils/disk-utils/partition_linux_ext2.cpp:30-64 | mounting succeeds exactly with readable metadata, the right magic number and descriptors that fit, and yields the announced geometry with the descriptors found from block 1 on |
| Mounting.DescriptorPlaceExact | ext4-utils/disk-utils/partition_linux_ext2.cpp:80-81 | a descriptor is looked for where the format puts it, META_BG included, if and only if blocks have more than 1024 bytes and it is in the very first block of descriptors, or descriptors fill their blocks and it has no place in its own meta group |
| Mounting.MountedInodeIsFormats | ext4-utils/disk-utils/partition_linux_ext2.cpp:112-147 | for a group whose descriptor is found in its place, the inode looked up in a mounted geometry is the one the format places on the partition if and only if the superblock's inode size is that of the file system, 128 on revision 0 |
| Mounting.OldRevision | ext4-utils/fs/ext4/ext4.h:226-228 | on revision 0 that means the unused field must hold 128; if it is 0, nothing is read for an inode table |
| Mounting.DestructorCounts | ext4-utils/fs/ext4/ext4_sb_info.h:54-54 | if the groups hold all inodes, the destructor counts as many groups as there are slots for tables if and only if there are between 1 and 2^32 data blocks |
| Ext2Partition.Ext2Partition.ReleaseTables | ext4-utils/fs/ext4/ext4_sb_info.h:50-61 | the loop overruns its array if and only if it counts more groups than there are slots; otherwise it releases the cached tables of the groups it counts, once each |
| Ext2Partition.ReleasesExactly | ext4-utils/fs/ext4/ext4_sb_info.h:54-58 | whatever is cached, all tables are released and nothing else is touched if and only if the count is the number of slots |
| Mounting.SuperblockTakenForTable | ext4-utils/disk-utils/partition_linux_ext2.cpp:80-81 | with blocks of 1024 bytes the descriptors are bytes of the superblock |
| Mounting.MountedGroups | ext4-utils/fs/ext4/ext4_sb_info.cpp:45-47 | a mounted file system has the format's number of groups, by the full block count, if and only if it has between 1 and 2^32 data blocks |
| Mounting.EveryInodeCounted | ext4-utils/disk-utils/partition_linux_ext2.cpp:115-136 | every inode of the file system's groups has a counted group if and only if there are at most 2^32 data blocks |
| Mounting.MountedShowsMagic | ext4-utils/fs/ext4/ext4_sb_info.cpp:88-91 | with blocks of more than 1024 bytes, block 0 holds the magic number |
| Mounting.InodeInGroups | ext4-utils/disk-utils/partition_linux_ext2.cpp:115-115 | the group of an inode number exists if and only if the number is at most groups times inodes per group |
| InodeCache.RunKeepsSound | ext4-utils/disk-utils/partition_linux_ext2.cpp:119-147 | over every run, with failed reads anywhere, queue entries stay distinct and at most 100 |
| InodeCache.FirstInFirstOut | ext4-utils/disk-utils/partition_linux_ext2.cpp:123-128 | over every run, evictions in order followed by the final queue are the initial queue followed by the loads in order |
| InodeCache.Resident | ext4-utils/disk-utils/partition_linux_ext2.cpp:123-146 | a group with y younger ones behind it survives every run of at most 99 - y misses |
| InodeCache.JustLoadedIsResident | ext4-utils/disk-utils/partition_linux_ext2.cpp:145-147 | a table just loaded, and so every inode pointer into it, outlives the next 99 misses |
| InodeCache.RequestsKeep | ext4-utils/disk-utils/partition_linux_ext2.cpp:119-147 | any n requests leave every table cached that has fewer than 100 - n younger ones; so a listing of a path of m components, of which `ListOnPartition` says that it makes at most m + 1, leaves alone the table that a copy in progress points into unless that is among the oldest |
| InodeCache.HundredthMissEvicts | ext4-utils/disk-utils/partition_linux_ext2.h:28-28 | and not always one more |
| Ext2Partition.Geometry.InodeAddressing | ext4-utils/disk-utils/partition_linux_ext2.cpp:112-147 | the inode lies inside the rounded-up sectors read for its table, and at the byte address the format gives |
| Ext2Partition.Ext2Partition.GetInodeFromCache | ext4-utils/fs/ext4/ext4_sb_info.cpp:75-86 | a hit exactly for queued groups, and then the bytes on the disk |
| Ext2Partition.Ext2Partition.EvictWhenFull | ext4-utils/disk-utils/partition_linux_ext2.cpp:123-128 | a full queue gives up its front and that group's table, nothing else |
| Ext2Partition.Ext2Partition.GetExt4Inode | ext4-utils/disk-utils/partition_linux_ext2.cpp:100-148 | hit and miss both return the inode on the disk, only inode 0 and a failed read return nothing, the cache stays exact and the queue moves as the cache machine says |
| Ext2Partition.AddEntry | ext4-utils/disk-utils/partition_linux_ext2.cpp:256-280 | growth by chunks loses nothing and always leaves room for one more |
| Ext2Partition.AppendRecords | ext4-utils/disk-utils/partition_linux_ext2.cpp:250-282 | parsing a tiled block terminates and appends exactly its records, in order |
| Ext2Partition.Ext2Partition.GetDirEntry | ext4-utils/disk-utils/partition_linux_ext2.cpp:201-288 | the table holds exactly the records of all blocks found for the directory, in order; null exactly for inode 0, an empty directory or a failed read, and the caller's count is assigned only without the first and the last; a fault exactly if a lookup dies, or in the destructor for an empty directory that uses extents |
| Ext2Partition.DirBlocksTile | ext4-utils/disk-utils/partition_linux_ext2.cpp:226-282 | whichever reads fail, every block read for a directory is one of its own, so the record loop never leaves it |
| Ext2Partition.DirReadRight | ext4-utils/disk-utils/partition_linux_ext2.cpp:226-282 | the records found are the directory's if no failed read of its double-indirect block is needed |
| Directory.EncodedFields | ext4-utils/disk-utils/partition_linux_ext2.h:45-51 | an encoded record is read back field by field, wherever it stands and whatever pads it |
| Directory.RecordsInvertEncoding | ext4-utils/disk-utils/partition_linux_ext2.cpp:250-282 | parsing inverts encoding for every list of records |
| FileContents.CopyArithmeticExact | ext4-utils/disk-utils/partition_linux_ext2.cpp:350-380 | the last chunk is between 1 byte and a block, never more than the size is written, and the whole size if and only if the file has at most 2^32 blocks |
| FileContents.ContentsByBlocks | ext4-utils/disk-utils/partition_linux_ext2.cpp:354-400 | what is read for a file is all its blocks but the last, followed by the cut last block |
| Holes.CopyExact | ext4-utils/disk-utils/partition_linux_ext2.cpp:354-400 | for every file whose requests are answered, what is read is the file by the format, holes being zeros, if and only if every block is read right; if the file is addressed right, if and only if whatever is read for each hole is blank; so always without holes |
| Holes.ContentsByte | ext4-utils/disk-utils/partition_linux_ext2.cpp:348-352 | by the format, every byte of a file is the byte at its place in the block mapped there, or 0 in a hole |
| Holes.LostReadSpoils | ext4-utils/disk-utils/partition_linux_ext2.cpp:354-400 | a pointer file without holes whose size fits in 32 bits and whose blocks 11 + A and 12 + A differ is what is read for it if and only if it needs no double-indirect block or its first read succeeds |
| FileContents.KeptContents | ext4-utils/disk-utils/partition_linux_ext2.cpp:354-400 | failed reads that are not needed leave no trace in what is read |
| Holes.ZeroPointerExact | ext4-utils/fs/ext4/blocks.cpp:88-99 | with the magic number in block 0, a pointer file addressed right whose pointer blocks exist is read right if and only if none of its block pointers is zero |
| Holes.BlankBlockZero | ext4-utils/fs/ext4/blocks.cpp:86-127 | with a blank block 0 every pointer file addressed right is read right, as every chain that meets a zero ends in block 0 |
| Holes.HoleIsReadAsBlockZero | ext4-utils/fs/ext4/blocks.cpp:89-92 | a one-block file that is all hole is read as block 0 of the partition, while its contents are zeros |
| Holes.HoleIsReadBesideAnExtent | ext4-utils/fs/ext4/blocks.cpp:75-83 | a hole or unwritten block of an extent file is read at its distance from some extent that does not hold it |
| Ext2Partition.Ext2Partition.CopyFullBlocks | ext4-utils/disk-utils/partition_linux_ext2.cpp:354-373 | after each block the output is exactly the blocks so far; it stops early only by failure, when a lookup dies or when a test finds the cancel flag raised, then with a prefix; step by step it is a run of the protocol's copying thread |
| Ext2Partition.Ext2Partition.CopyTail | ext4-utils/disk-utils/partition_linux_ext2.cpp:380-400 | the last block is written up to the end of the file and completes the copy, unless it cannot be looked up, read or written |
| Ext2Partition.Ext2Partition.CopyBlocks | ext4-utils/disk-utils/partition_linux_ext2.cpp:348-401 | error 0 if and only if no block or write failed and no test of the cancel flag found it raised, however late it may be raised; then exactly what is read was appended, unless a lookup died; a prefix of it otherwise; a run of the protocol's copying thread |
| Ext2Partition.Ext2Partition.ReadFile | ext4-utils/disk-utils/partition_linux_ext2.cpp:323-402 | the same for the whole operation on an inode number, from the thread's first step to its last; what was appended is the format's file if and only if every block is read right, which depends on the failed reads of the double-indirect block; exactly when the thread faults, and then the copy is incomplete; it makes one request to the inode cache, which leaves the cache alone if the inode's table is in it |
| CopyProtocol.CopierKeepsInv | ext4-utils/disk-utils/partition_linux_ext2.cpp:354-401 | every step of the copying thread keeps the protocol invariant and changes the file only while the handle is open |
| CopyProtocol.PollerKeepsInv | ext4Plugin.cpp:368-396 | every step of the polling thread keeps it and leaves the file alone |
| CopyProtocol.ExecutionKeepsInv | ext4Plugin.cpp:363-396 | the invariant holds in every state of every interleaving |
| CopyProtocol.ResultIsHonest | ext4Plugin.cpp:368-396 | FS_FILE_OK is returned only for a complete copy, any other state has a prefix, and on return the copying thread has finished and the handle is closed |
| CopyProtocol.NoWriteAfterClose | ext4Plugin.cpp:393-395 | no write ever hits the closed handle although the OK path closes before joining |
| CopyProtocol.ResultHasCause | ext4Plugin.cpp:370-390 | an abort is reported only if the user cancelled, a read error only if the size query or the device failed |
| CopyProtocol.ResultExact | ext4Plugin.cpp:368-396 | in every execution the result is an abort if and only if the user cancelled, a read error if and only if a size query failed or an error was seen in the error word, and OK if and only if none of the three happened |
| CopyProtocol.PollerChoices | ext4Plugin.cpp:370-384 | after every progress report the user can cancel or not, and every size query can fail or yield the size |
| CopyProtocol.CancelIsHonoured | ext4Plugin.cpp:382-390 | wherever the user can cancel, an execution in which he does can only return the abort, with the flag raised, the thread joined and the handle closed |
| CopyProtocol.FailedQueryIsReported | ext4Plugin.cpp:370-378 | likewise a failed size query and a read error |
| CopyProtocol.SeenErrorIsReported | ext4Plugin.cpp:370-378 | likewise an error that is seen |
| CopyProtocol.CompleteCopyIsOk | ext4Plugin.cpp:379-396 | once a size that reaches the file's has been seen, only OK can be returned |
| CopyProtocol.FlagStopsCopy | ext4-utils/disk-utils/partition_linux_ext2.cpp:354-378 | from the moment the flag is raised the file only grows by the rest of the block in progress |
| CopyProtocol.CrashHasCause | ext4-utils/fs/ext4/blocks.cpp:30-34 | the copying thread faults only if the lookup of a block died, or for an extent file cancelled before its first block, with nothing written |
| CopyProtocol.CrashIsNoResult | ext4Plugin.cpp:368-396 | after a fault the file is an incomplete prefix and no result is ever returned |
| CopyOfFile.CrashedIsIncomplete | ext4-utils/disk-utils/partition_linux_ext2.cpp:354-401 | a run of the copying thread that faults has not copied everything |
| CopyProtocol.JoinTerminates | ext4Plugin.cpp:372-394 | in no execution does the copying thread take more than 4 steps per chunk, 7 more and one per byte |
| CopyProtocol.CopierNeverStuck | ext4-utils/disk-utils/partition_linux_ext2.cpp:338-401 | in every state of every execution, until it has finished or faulted, the copying thread can take a step |
| CopyProtocol.PollerWindsUp | ext4Plugin.cpp:368-396 | once the copying thread has finished, an execution goes on for at most eight steps |
| CopyProtocol.PollerNeverStuck | ext4Plugin.cpp:368-396 | and can always take the next one |
| CopyOfFile.ConfigIsTheFile | ext4-utils/disk-utils/partition_linux_ext2.cpp:350-400 | the chunks the thread writes are non-empty and concatenate to what is read for the file |
| CopyOfFile.ExecutionIsCopierRun | ext4Plugin.cpp:399-404 | seen from the copying thread, every execution of the protocol is a run in which others at most raise the flag |
| CopyOfFile.CopyIsHonest | ext4Plugin.cpp:363-396 | whatever the interleaving, OK means the local file is what is read for the inode, and it is byte for byte the format's file if and only if every block is read right, for every set of failed reads of the double-indirect block |
| CopyOfFile.OkMeansTheFileExact | ext4Plugin.cpp:368-396 | for such a file as `LostReadSpoils` is about, and whatever the interleaving, an OK result means the right bytes if and only if it needs no double-indirect block or the first read of it succeeds |
| PartitionTable.LogicalOffsetExact | ext4-utils/disk-utils/disk.cpp:219-219 | the 32-bit sum is the true position if and only if it is below 2^32 sectors |
| Layouts.TableSectorFields | ext4-utils/disk-utils/partition.cpp:47-61 | type and first sector of every entry of a boot record are read back, and its signature is recognised |
| PartitionTable.PrimariesAreFormats | ext4-utils/disk-utils/disk.cpp:173-196 | the MBR loop collects one record for every slot in use, with its type byte, its sector times the sector size and its number, and ends with the last extended slot as base |
| PartitionTable.PrimaryRecordsExact | ext4-utils/disk-utils/disk.cpp:153-243 | of all records collected from a disk the primary ones are exactly those, each once |
| PartitionTable.VolumesExact | ext4-utils/disk-utils/disk.cpp:199-240 | on every signed chain the logical volumes collected are the format's, in number, kind and position, if and only if up to the first link that is not of type 0x5 every boot record has a volume that starts below sector 2^32, and behind it none has one |
| PartitionTable.EmptyAndOtherLinks | ext4-utils/disk-utils/disk.cpp:216-240 | a chain without volumes yields one all the same, and a link of type 0xf ends the walk |
| PartitionTable.ListExact | ext4-utils/disk-utils/disk.cpp:153-243 | the same for all numbered records of a disk, primaries and base of the extended partition being read from the MBR's bytes |
| PartitionTable.LinkOffsetExact | ext4-utils/disk-utils/disk.cpp:227-234 | a link adds a record numbered 0 whose offset is that of the boot record it links to only in the first boot record, and below 2^32 sectors |
| PartitionTable.NumberingIncreases | ext4-utils/disk-utils/disk.cpp:173-239 | along the list of any disk the nonzero numbers strictly increase and 0 marks links only |
| PartitionTable.PartitionList.AddPart | ext4-utils/disk-utils/partition_list.cpp:39-76 | the linked list stays well formed and gains exactly one new partition object at its end |
| PartitionTable.HardDisk.AddPrimaries | ext4-utils/disk-utils/disk.cpp:173-196 | primaries are the non-empty slots with number slot + 1 and offset LBA times sector size; the last extended entry is the base |
| PartitionTable.HardDisk.AddEbr | ext4-utils/disk-utils/disk.cpp:216-236 | one boot record adds its logical volume with the next number and, if linked, a record numbered 0, both at the 32-bit sums |
| PartitionTable.HardDisk.ReadChain | ext4-utils/disk-utils/disk.cpp:199-240 | on every finite chain the loop terminates and collects what the recursive walk does, numbered 5, 6, ...; it fails if and only if a read fails or the last record is unsigned |
| PartitionTable.HardDisk.MakePartitionsList | ext4-utils/disk-utils/disk.cpp:153-243 | 0 if and only if all reads succeed and all tables are signed, and then exactly the records of the recursive walk (which `ListExact` compares with the format's); otherwise a prefix of them, and none at all after a missing signature |
| ExtPartitions.GetExt2Sb | ext4-utils/disk-utils/partition_linux_ext2.cpp:30-64 | true exactly when the partition ends up mounted, as its superblock bytes and the two read outcomes decide; an unreadable superblock leaves the deleted pointer |
| ExtPartitions.FindLinuxPartitions | ext4-utils/disk-utils/disk.cpp:281-310 | the count is the number of Linux partitions that mount |
| ExtPartitions.Ext2PartitionsInit | ext4-utils/disk-utils/disk.cpp:315-347 | the table holds exactly the counted partitions in list order, then null; the deleted pointer is followed if and only if some superblock was unreadable and another partition mounted |
| ExtPartitions.SelectedNumbering | ext4-utils/disk-utils/disk.cpp:328-344 | the numbers of the table are positive and strictly increasing |
| ExtPartitions.SelectedNonEmpty | ext4-utils/disk-utils/disk.cpp:323-324 | something is collected if and only if some Linux partition mounts |
| ExtPartitions.SelectedExact | ext4-utils/disk-utils/disk.cpp:294-304 | what mounts of a list are its records of type 0x83 with readable metadata and the magic number in bytes 1080 and 1081 |
| ExtPartitions.DiskInit | ext4-utils/disk-utils/disk.cpp:130-137 | the table of a disk is, record by record, what mounts of the collected partitions, numbered increasingly |
| ExtPartitions.MountsWhatTheFormatLists | ext4-utils/disk-utils/disk.cpp:130-137 | under that condition, that is what mounts of the partitions the format lists |
| IdMap.RegionsInside | ext4PluginDescr.cpp:98-121 | the disks' regions are disjoint, behind the headers and inside disks + sum of maximal numbers |
| IdMap.FillRegion | ext4PluginDescr.cpp:115-120 | filling one disk's region maps each of its numbers to its entry and touches nothing else |
| IdMap.InitIdMap | ext4PluginDescr.cpp:98-128 | the loops build the complete map for any number of disks, all writes in bounds |
| SystemScan.ScanDisk | ext4PluginDescr.cpp:64-86 | one disk's numbers are those of the partitions it mounts, none after a failed read or a missing signature |
| SystemScan.SearchSystem | ext4PluginDescr.cpp:51-91 | without a fault the tables of all disks are numbered as the map needs them, the map over them is complete, and its size is the number of disks plus the sum of the largest numbers |
| IdMap.LookupExact | ext4PluginDescr.h:106-107 | for a number that passes the range check, the lookup returns that number's entry if and only if the number is listed |
| IdMap.LookupInverts | ext4PluginDescr.h:106-107 | looking up the number of entry j returns j |
| IdMap.ZeroPassesTheCheck | ext4PluginDescr.cpp:203-218 | number 0 passes the check and can yield an index past the table |
| RootListing.GetFirst | ext4PluginDescr.cpp:220-234 | the first entry of the first disk that has any, or none if there is none at all |
| RootListing.GetNext | ext4PluginDescr.cpp:237-255 | the next entry in lexicographic order, or none exactly at the last one |
| RootListing.RemainingIsComplete | ext4PluginDescr.cpp:237-255 | that order visits every (disk, index) pair exactly once |
| RootListing.RootIsComplete | ext4PluginDescr.cpp:220-255 | so from the first entry on it shows every index of every disk's table, disk by disk and in order |
| RootListing.ListRoot | ext4Plugin.cpp:153-178 | first and next together show all of them and stop |
| DeviceNames.ScanName | ext4PluginDescr.cpp:158-192 | the letter-and-digit loop succeeds exactly on letters followed by digits and yields the values of both parts |
| DeviceNames.ExtractDiskAndPartNo | ext4PluginDescr.cpp:130-201 | a path parses if and only if its device component has that shape and names an existing disk and a number in range |
| DeviceNames.AlphaValueInjective | ext4PluginDescr.cpp:172-172 | no two strings of lower-case letters have the same disk number |
| DeviceNames.AlphaValueOnto | ext4PluginDescr.cpp:172-172 | every positive number is the value of such a string |
| DeviceNames.DecimalRoundTrip | ext4PluginDescr.cpp:181-181 | a printed number is read back |
| DeviceNames.PrintedNameParses | ext4Plugin.cpp:170-171 | the name printed for a partition of disks 0 to 25, at the end of a path or before a backslash, parses back to its disk and number |
| DeviceNames.LaterDisksDoNotParse | ext4Plugin.cpp:267-269 | names printed for disks 26 to 30 never parse |
| DeviceNames.UpperCaseAlias | ext4PluginDescr.cpp:164-173 | letters of both cases are accepted but counted differently, which gives disks further names |
| DeviceNames.OpenByName | ext4Plugin.cpp:185-188 | name, parser and id map together lead back to the listed table entry |
| NameLookup.HiddenExact | ext4PluginDescr.cpp:336-337 | the filter hides exactly dead entries and the names "", "." and "..", read up to a NUL byte |
| NameLookup.VisibleConcat | ext4PluginDescr.cpp:333-345 | the filter works entry by entry and keeps the order |
| NameLookup.VisibleOne | ext4PluginDescr.cpp:336-337 | and keeps a single entry unless it is dead or named "", "." or ".." |
| NameLookup.NextVisible | ext4PluginDescr.h:143-166 | the iterator moves to the next visible entry and skips nothing else |
| NameLookup.ListDirectory | ext4PluginDescr.cpp:333-345 | first and next together show every visible entry once and in order |
| NameLookup.ListingReachesExact | ext4PluginDescr.cpp:306-330 | a listing gets to the directory its path means if and only if no deleted entry of a component's name precedes the live one; otherwise it shows nothing |
| NameLookup.OpeningReachesExact | ext4PluginDescr.h:190-218 | an open gets there if and only if no deleted directory entry of a component's name precedes the live one; otherwise it searches a null table |
| NameLookup.WalksAgree | ext4PluginDescr.h:190-218 | where a listing gets to, an open gets to as well |
| NameLookup.OpenInByEntries | ext4PluginDescr.h:220-237 | in a directory inode n is opened if and only if the first regular entry of the name has it, and nothing if and only if there is no such entry or the first one is deleted |
| NameLookup.OpenFileByEntries | ext4PluginDescr.h:172-238 | the same for every path whose components exist, over the entries of the directory it means; a null table is searched if and only if a deleted directory entry precedes a component |
| NameLookup.FirstComponentMissing | ext4PluginDescr.h:190-218 | a path whose first component is no directory of the root opens nothing |
| NameLookup.MissingComponentIsSkipped | ext4PluginDescr.h:190-218 | a path whose later component is missing opens what the path without it opens |
| NameLookup.ListingSkipsMissing | ext4PluginDescr.cpp:306-330 | a listing does so for every component |
| NameLookup.LiveFileOpensExact | ext4PluginDescr.h:172-238 | a live regular file opens by its path if and only if no deleted directory entry precedes any component and no deleted regular entry precedes the file |
| NameLookup.ListedFileOpensExact | ext4PluginDescr.h:220-234 | a regular file that a listing shows opens to its own inode if and only if no deleted regular entry of its name precedes it |
| NameLookup.DeletedEntryHidesFile | ext4PluginDescr.h:220-234 | a directory in which it does not open |
| PathLookup.OpenOnPartition | ext4PluginDescr.h:172-238 | the component loop, the search and the inode fetch, on a mounted partition: unless a read fails noticeably, the outcome is that of the recursive walk over the records found in its directories, with the inode on the disk and its table cached, and a null table is searched exactly when some component cannot be loaded; at most one request to the inode cache per component and two more |
| PathLookup.TreeIsThePartitions | ext4-utils/disk-utils/partition_linux_ext2.cpp:201-288 | the records found in a directory are its own if no failed read of its double-indirect block is needed |
| PathLookup.ListOnPartition | ext4PluginDescr.cpp:293-346 | a listing shows exactly the visible records of the directory the walk by name ends in, nothing if a directory cannot be loaded, and faults exactly on an empty directory that uses extents, unless a read fails; at most one request to the inode cache per component and one more |
| NameLookup.WordsOfJoin | ext4PluginDescr.cpp:309-311 | splitting a path gives its components back |
| NameLookup.WordsSplit | ext4PluginDescr.cpp:309-311 | every separator, doubled ones included, splits a path into parts with their own words, and a non-empty text without one is a word |
| NameLookup.PathOfListedEntry | ext4PluginDescr.h:185-194 | the path of a listed entry is split into the listed directory's components and the entry's name |
| GetFile.PartitionOf | ext4Plugin.cpp:331-336 | the partition is the one that the name's device part, parsed and sent through the map, leads to, and none if it leads nowhere |
| GetFile.PrintedNameLeads | ext4Plugin.cpp:331-336 | every printed name, at the end of a path or before a backslash, leads to its listed table entry |
| GetFile.OpenRemote | ext4Plugin.cpp:337-347 | unless a read fails, the outcome on a partition is the one that the records found determine; what is handed to the copying thread is always the regular file that the path leads to, with its inode's table cached |
| GetFile.FsGetFile | ext4Plugin.cpp:319-357 | for every name the outcome on the partition it leads to, a fault for an index behind the disk's table, and not found if it leads nowhere; a printed name leads to its listed partition |
| GetFile.NameOfFile | ext4Plugin.cpp:337-342 | the name made of device, components and file name opens a live regular file if and only if no deleted directory entry precedes a component and no deleted regular entry precedes the file |
| GetFile.OutcomeByEntries | ext4Plugin.cpp:331-348 | that outcome in terms of the directory's entries and the inode's bytes: a regular file, by the type in its mode, is handed on with number and bytes, any other type is not supported, and a name without a regular entry, or with a deleted one first, is not found |
| GetFile.GetFileIsHonest | ext4Plugin.cpp:363-396 | and an OK result then means the local file is everything read for that inode, which is its file by the format if and only if every block is read right, for every set of failed reads of its double-indirect block |

## Left out

- IndirectMap.CursorExact: is stated for files that map no block twice, since only there a wrong pointer is certain to give a wrong answer, and below the last double-indirect slot, which `InBoundsExact` treats.
- Holes.ZeroPointerExact: is stated for files whose pointer blocks exist and, if the last pointer is zero, whose last block reaches past byte 1081; in the other cases it depends on what else block 0 holds, and `CopyExact` has the condition.
- Sectors of other than 512 bytes are excluded by precondition; `ShiftByNineExact` and `SuperBlockSectors` say what goes wrong.
- A device read that does not fail returns everything asked for, and a write that does not fail writes everything; the code looks neither at the number of bytes transferred nor, in effect, at the outcome of a seek.
- A fault of one thread ends the whole program; `CopyProtocol` lets the polling thread go on, which only adds executions.
- Holes.LostReadSpoils: is stated for files without holes whose size fits in 32 bits and whose blocks 11 + A and 12 + A differ; `LostReadsExact` and `CopyExact` have the general conditions.
- Blocks.Blocks.Flush: requires that an extent file has been looked up at least once; the code dereferences the null path array otherwise, which `ReadFile` and `GetDirEntry` report as `faulted`. After a lookup that died no destructor runs.
- ExtentTree.WalkFindsCovering: the tree's nodes lie below block 2^32, beyond which the walk reads other blocks as nodes; extents may start anywhere.
- Ext2Partition.Ext2Partition.GetDirEntry: requires a directory without holes, addressed right as long as no read fails, of fewer than 2^32 blocks, whose blocks are tiled by records; a record length of 0 or one that runs past its block makes the code loop or read elsewhere. The entries that error paths forget to delete are not accounted for.
- Ext2Partition.Ext2Partition.ReadFile: requires that every request is answered: at most 2^32 blocks; for extents a walk that finds an extent for every block and no block whose distance from it leads below address 0 (the address is left over or wraps otherwise); for pointers at most 11 + A + A * A blocks.
- Mounting.Mount: requires a superblock with the right magic number to be well formed, since the code divides by its fields unchecked, and the table's size in bytes to fit the `int` it is computed in. Inode sizes below 128 are mounted but no inode is looked up then, as its fields lie behind the bytes read.
- ExtPartitions.GetExt2Sb: requires the same, and descriptors that fit, of every Linux partition it tries.
- PartitionTable.HardDisk.MakePartitionsList: requires the walk over the extended boot records to be finite; a cyclic chain keeps the code looping.
- PartitionTable.VolumesExact: takes the extended partition the code settles on, the last of several, as given; the format knows only one. Boot records without a volume must lie below sector 2^32, as the code reads some other sector in place of one behind it, which can happen to hold the same record as the next.
- Ext2Partition.Geometry.InodeAddressing: requires an inode table below 2^32 bytes, beyond which the 32-bit products wrap.
- IdMap.InitIdMap: numbers are unbounded integers, as in `DeviceNames.ScanName`; overflow of `int` in names with very long letter or digit runs is not modelled.
- CopyProtocol.ResultIsHonest: thread creation, handles and the operating system's scheduler are abstracted to interleaved atomic steps; a running write puts bytes down in any number of pieces, and the file size is what has been put down.
- PathLookup.OpenOnPartition: requires the directory entries it enters to name directories, `ListOnPartition` the same of the entries of any type it enters; reading anything else as a directory is not modelled. A directory that a walk enters twice meets the same failed reads of its double-indirect block both times.
- GetFile.FsGetFile: creating the local file is left out.
- Triple indirection, magic numbers of inner extent nodes and journal replay: the code has none of them.
- Inodes are values: that the pointer into a cached table which a copy keeps stays good is what `InodeCache.Resident` and `RequestsKeep` say; the lookups of a concurrent listing count as requests between those of the copy, not as interleaved steps of them.
- The mounted state is `Geometry`, while the list of partitions only records whether there is one.
- Truncation of long paths and shared directory tables of concurrent listings.
- Path splitting is on bytes; code page conversion is outside the model, as are attributes, times, sizes and progress shown to the user.
- Windows calls, logging, windows, the administrator check, the unused alternative list builder and the unused second form of directory listing.
