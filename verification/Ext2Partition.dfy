/** A mounted ext2/3/4 partition: the inode-table cache, directory reading and the file copy loop. */
module Ext2Partition {
  import opened Bytes
  import opened Volume
  import opened BlockMap
  import opened IndirectMap
  import opened FileContents
  import opened Directory
  import opened CopyOfFile
  import opened CopyProtocol
  import opened Holes
  import GroupTable
  import InodeCache
  import Blocks

  /** The local file being written: an append-only handle, and how many writes to it have failed. */
  class LocalFile {
    var contents: seq<Byte>
    var writeFailures: nat

    constructor ()
      ensures contents == [] && writeFailures == 0
    {
      contents, writeFailures := [], 0;
    }

    /** A failing write may leave any part of the chunk behind. */
    method WriteFile(chunk: seq<Byte>) returns (ok: bool)
      modifies this
      ensures ok ==> contents == old(contents) + chunk
      ensures old(contents) <= contents <= old(contents) + chunk
      ensures writeFailures == old(writeFailures) + if ok then 0 else 1
    {
      var n: nat :| n <= |chunk|;
      contents := contents + chunk[..n];
      var reported: bool := *;
      ok := n == |chunk| && reported;
      if !ok {
        writeFailures := writeFailures + 1;
      }
    }
  }

  /** The words the copying thread shares with the polling thread, and how many of its tests of the
      cancel flag have found the flag raised. */
  class CopyParams {
    var error: int
    var intFlag: bool
    var raisedReads: nat

    constructor ()
      ensures error == 0 && !intFlag && raisedReads == 0
    {
      error, intFlag, raisedReads := 0, false, 0;
    }

    /** At any moment the other thread may raise the flag. */
    method Meanwhile()
      modifies `intFlag
      ensures old(intFlag) ==> intFlag
    {
      var raised: bool := *;
      intFlag := intFlag || raised;
    }

    /** A test of the flag. */
    method PollIntFlag() returns (cancelled: bool)
      modifies `raisedReads
      ensures cancelled == intFlag && raisedReads == old(raisedReads) + if cancelled then 1 else 0
    {
      cancelled := intFlag;
      if cancelled {
        raisedReads := raisedReads + 1;
      }
    }
  }

  /** What became of one block: read and used, a failed read or write, or a lookup that died. */
  datatype BlockResult = Done | Failed | Died

  /** What a caller's address variable holds when it is about to ask for block k: the address of block k - 1. */
  ghost predicate Carries(blk: Blocks.Blocks, k: nat, nrBlk: nat)
    requires blk.fs.Valid() && ValidInode(blk.inode)
  {
    k > 0 ==> Answered(blk.fs, blk.inode, blk.lost, k - 1) && nrBlk == Target(blk.fs, blk.inode, blk.lost, k - 1)
  }

  /** Static geometry of the partition. */
  datatype Geometry = Geometry(fs: Fs, inodesPerGroup: nat, inodeSize: nat, is64: bool, grDesc: seq<seq<Byte>>)
  {
    /** As mounting leaves it. */
    predicate Shaped() {
      && fs.Valid()
      && inodesPerGroup > 0
      && TableBytes() + 512 < TWO_32
      && forall g :: 0 <= g < |grDesc| ==> |grDesc[g]| >= 32 && (is64 ==> |grDesc[g]| >= 44)
    }

    /** Inodes are as long as the structure they are read through, so none is followed past its table. */
    predicate Valid() {
      Shaped() && 128 <= inodeSize
    }

    /** Bytes of one group's inode table. */
    function TableBytes(): nat {
      inodeSize * inodesPerGroup
    }

    function TableSectors(): nat
      requires Shaped()
    {
      (TableBytes() + fs.part.sectorSize - 1) / fs.part.sectorSize
    }

    function TableBlock(g: nat): nat
      requires Shaped() && g < |grDesc|
    {
      GroupTable.InodeTableBlock(grDesc[g], is64)
    }

    /** What one read of group g's table returns: whole sectors from its first block on. */
    function DiskTable(g: nat): seq<Byte>
      requires Shaped() && g < |grDesc|
    {
      ReadSectorsEx(fs.part, TableBlock(g) * (fs.blockSize / fs.part.sectorSize), TableSectors())
    }

    function Group(n: nat): nat
      requires Shaped() && n > 0
    {
      (n - 1) / inodesPerGroup
    }

    function IndexInGroup(n: nat): nat
      requires Shaped() && n > 0
    {
      (n - 1) % inodesPerGroup
    }

    function InodeOffset(n: nat): nat
      requires Shaped() && n > 0
    {
      IndexInGroup(n) * inodeSize
    }

    /** Inode n as it stands on the disk. */
    function DiskInode(n: nat): (inode: seq<Byte>)
      requires Shaped() && n > 0 && Group(n) < |grDesc|
      ensures |inode| == inodeSize
    {
      seq(inodeSize, i requires 0 <= i => fs.part.disk(fs.part.offset + TableBlock(Group(n)) * fs.blockSize +
              InodeOffset(n) + i))
    }

    /** The inode lies inside the sectors read for its table. */
    lemma InodeInTable(n: nat)
      requires Valid() && n > 0 && Group(n) < |grDesc|
      ensures InodeOffset(n) + inodeSize <= TableBytes() <= TableSectors() * fs.part.sectorSize
      ensures InodeOffset(n) < TWO_32
    {
      hide ValidBlockSize;
      MulMono(inodeSize, IndexInGroup(n) + 1, inodesPerGroup);
      CeilDivBounds(TableBytes(), 512);
    }

    lemma TableSectorStart(g: nat)
      requires Valid() && g < |grDesc|
      ensures TableBlock(g) * (fs.blockSize / fs.part.sectorSize) * fs.part.sectorSize == TableBlock(g) * fs.blockSize
    {
      var t, q := TableBlock(g), fs.blockSize / 512;
      hide TableBlock;
      assert t * q * 512 == t * (q * 512);
    }

    /** The inode lies inside the sectors read for its table, at the byte address the format gives. */
    lemma InodeAddressing(n: nat)
      requires Valid() && n > 0 && Group(n) < |grDesc|
      ensures InodeOffset(n) + inodeSize <= TableBytes() <= |DiskTable(Group(n))|
      ensures InodeOffset(n) < TWO_32
      ensures DiskTable(Group(n))[InodeOffset(n)..InodeOffset(n) + inodeSize] == DiskInode(n)
    {
      hide TableBlock, TableSectors, InodeOffset, TableBytes;
      InodeInTable(n);
      TableSectorStart(Group(n));
    }
  }

  /** `n_groups` of the mounted state's destructor: a quotient of 32-bit numbers put into an `int`. */
  function DestructorGroups(inodesCount: nat, perGroup: nat): (n: int)
    requires perGroup > 0
    ensures inodesCount < TWO_32 ==> -TWO_31 <= n < TWO_31 && (n - inodesCount / perGroup) % TWO_32 == 0
  {
    if inodesCount / perGroup < TWO_31 then inodesCount / perGroup else inodesCount / perGroup - TWO_32
  }

  /** All of these groups are below n. */
  predicate Below(groups: seq<nat>, n: int) {
    forall g :: g in groups ==> g < n
  }

  /** Whatever is cached, every cached table is released and nothing behind the array is touched exactly if as
      many groups are counted as the array has slots. */
  lemma ReleasesExactly(slots: nat, counted: int)
    requires slots > 0
    ensures counted == slots <==>
            counted <= slots && forall cached: seq<nat> :: Below(cached, slots) ==> Below(cached, counted)
  {
    if counted < slots {
      var last: seq<nat> := [slots - 1];
      assert Below(last, slots) && slots - 1 in last;
    }
  }

  class Ext2Partition {
    const geo: Geometry
    const inodesTableCache: array<Option<seq<Byte>>>
    var groupDescQueue: seq<nat>
    /** How many reads of inode tables and of blocks of files have failed. */
    var readFailures: nat
    /** How many lookups have died on a pointer block or an extent node that could not be read. */
    var lookupFaults: nat

    /** The queue names exactly the groups whose table is held, oldest first, and every table held is
        the one on the disk. */
    ghost predicate Valid()
      reads `groupDescQueue, inodesTableCache
    {
      && geo.Valid()
      && inodesTableCache.Length == |geo.grDesc|
      && InodeCache.Sound(groupDescQueue)
      && (forall g :: g in groupDescQueue ==> g < |geo.grDesc|)
      && (forall g :: 0 <= g < |geo.grDesc| ==>
            inodesTableCache[g] == if g in groupDescQueue then Some(geo.DiskTable(g)) else None)
    }

    constructor (geo: Geometry)
      requires geo.Valid()
      ensures Valid() && this.geo == geo && groupDescQueue == [] && fresh(inodesTableCache)
      ensures readFailures == 0 && lookupFaults == 0
    {
      this.geo := geo;
      inodesTableCache := new Option<seq<Byte>>[|geo.grDesc|](_ => None);
      groupDescQueue := [];
      readFailures, lookupFaults := 0, 0;
    }

    /** Failed reads and, if there is a handle, failed writes to it. */
    function IoFailures(hnd: LocalFile?): nat
      reads `readFailures, hnd
    {
      readFailures + if hnd == null then 0 else hnd.writeFailures
    }

    /** Reads that have failed where the code can tell, or dies. */
    function FailedReads(): nat
      reads `readFailures, `lookupFaults
    {
      readFailures + lookupFaults
    }

    /** A device read may fail; when it succeeds it returns the sectors asked for. */
    method ReadSectors(start: nat, count: nat) returns (r: Option<seq<Byte>>)
      modifies `readFailures
      ensures r.Some? ==> r.value == ReadSectorsEx(geo.fs.part, start, count)
      ensures readFailures == old(readFailures) + if r.None? then 1 else 0
    {
      var fail: bool := *;
      if fail {
        readFailures := readFailures + 1;
        return None;
      }
      return Some(ReadSectorsEx(geo.fs.part, start, count));
    }

    /** The inode inside a cached table. */
    method GetInodeFromCache(n: nat) returns (r: Option<seq<Byte>>)
      requires Valid() && n > 0 && geo.Group(n) < |geo.grDesc|
      ensures r == if geo.Group(n) in groupDescQueue then Some(geo.DiskInode(n)) else None
    {
      geo.InodeAddressing(n);
      var groupNo := geo.Group(n);
      var offset := U32(geo.IndexInGroup(n) * geo.inodeSize);
      if inodesTableCache[groupNo].Some? {
        return Some(inodesTableCache[groupNo].value[offset..offset + geo.inodeSize]);
      }
      return None;
    }

    /** Makes room before a load: a full queue gives up its front. */
    method EvictWhenFull()
      requires Valid()
      modifies `groupDescQueue, inodesTableCache
      ensures Valid() && groupDescQueue == InodeCache.Evicted(old(groupDescQueue))
      ensures |groupDescQueue| < InodeCache.MAX_GROUP_DESC_QUEUE_LEN
    {
      if |groupDescQueue| >= InodeCache.MAX_GROUP_DESC_QUEUE_LEN {
        ghost var q := groupDescQueue;
        var index := groupDescQueue[0];
        assert index in groupDescQueue;
        inodesTableCache[index] := None;
        groupDescQueue := groupDescQueue[1..];
        assert forall g :: g in q <==> g == index || g in groupDescQueue by {
          assert q == [index] + groupDescQueue;
        }
      }
    }

    method AddTable(group: nat, table: seq<Byte>)
      requires Valid() && group < |geo.grDesc| && group !in groupDescQueue && table == geo.DiskTable(group)
      requires |groupDescQueue| < InodeCache.MAX_GROUP_DESC_QUEUE_LEN
      modifies `groupDescQueue, inodesTableCache
      ensures Valid() && groupDescQueue == old(groupDescQueue) + [group]
    {
      inodesTableCache[group] := Some(table);
      groupDescQueue := groupDescQueue + [group];
    }

    /** Hit, miss, eviction and failed read. A hit and a miss return the same bytes, the inode on the
        disk; only a failed read returns nothing; the queue moves as the cache machine says. */
    method GetExt4Inode(n: nat) returns (r: Option<seq<Byte>>)
      requires Valid() && (n > 0 ==> geo.Group(n) < |geo.grDesc|)
      modifies this, inodesTableCache
      ensures Valid()
      ensures r.Some? ==> n > 0 && r.value == geo.DiskInode(n)
      ensures if n == 0 then r == None && groupDescQueue == old(groupDescQueue)
              else groupDescQueue == InodeCache.Next(old(groupDescQueue), InodeCache.Request(geo.Group(n), r.Some?))
      ensures n > 0 && geo.Group(n) in old(groupDescQueue) ==> r.Some?
      ensures r.Some? ==> geo.Group(n) in groupDescQueue
      ensures readFailures == old(readFailures) + if n > 0 && r.None? then 1 else 0
      ensures lookupFaults == old(lookupFaults)
    {
      if n == 0 {
        return None;
      }
      var group := geo.Group(n);
      r := GetInodeFromCache(n);
      if r.Some? {
        return;
      }
      EvictWhenFull();
      var start := geo.TableBlock(group) * (geo.fs.blockSize / geo.fs.part.sectorSize);
      var table := ReadSectors(start, geo.TableSectors());
      if table.None? {
        return None;
      }
      AddTable(group, table.value);
      geo.InodeAddressing(n);
      var offset := geo.InodeOffset(n);
      r := Some(table.value[offset..offset + geo.inodeSize]);
    }

    /** The destructor's loop over the cached tables. It runs past the array exactly if it counts more groups
        than the array has slots; otherwise it releases the cached tables of the groups it counts, once each. */
    method ReleaseTables(inodesCount: nat) returns (released: seq<nat>, overrun: bool)
      requires Valid()
      ensures overrun <==> DestructorGroups(inodesCount, geo.inodesPerGroup) > |geo.grDesc|
      ensures !overrun ==>
                forall g: nat :: multiset(released)[g] ==
                                 if g < DestructorGroups(inodesCount, geo.inodesPerGroup) && g in groupDescQueue
                                 then 1 else 0
    {
      hide DestructorGroups, InodeCache.Sound, Fs.Valid, Geometry.DiskTable;
      released, overrun := [], false;
      var nGroups := DestructorGroups(inodesCount, geo.inodesPerGroup);
      var i := 0;
      while i < nGroups
        invariant 0 <= i <= |geo.grDesc| && (i <= nGroups || i == 0)
        invariant forall g: nat :: multiset(released)[g] == if g < i && g in groupDescQueue then 1 else 0
      {
        if i >= inodesTableCache.Length {
          overrun := true;
          return;
        }
        if inodesTableCache[i].Some? {
          released := released + [i];
        }
        i := i + 1;
      }
    }

    // ----- looking up a block -----

    /** A lookup by a caller whose address variable holds `prev`. An error code never counts as one for the
        callers, so the variable keeps its value then. */
    method LookUp(blk: Blocks.Blocks, k: nat, prev: nat) returns (nrBlk: nat, died: bool)
      requires blk.Serving(k) && k < FileBlockCount(blk.fs, blk.inode) && Carries(blk, k, prev)
      modifies blk, blk.extentPath, `lookupFaults
      ensures Answered(blk.fs, blk.inode, blk.lost, k)
      ensures blk.extentPath == old(blk.extentPath) || fresh(blk.extentPath)
      ensures !died ==> blk.Serving(k + 1) && Carries(blk, k + 1, nrBlk)
      ensures !died && UsesExtents(blk.inode) ==> blk.extentPath != null
      ensures lookupFaults == old(lookupFaults) + if died then 1 else 0
    {
      hide Readable, Answered, Target, Stalled, AddressedRight, Blocks.Blocks.Serving, Blocks.Blocks.Valid;
      ServingIsReadable(blk, k);
      nrBlk, died := prev, false;
      var reply := blk.GetExt2BlkNr(k);
      match reply
      case Address(nr) =>
        nrBlk := nr;
      case Kept =>
        StalledTarget(blk.fs, blk.inode, blk.lost, k);
      case Died =>
        died := true;
        lookupFaults := lookupFaults + 1;
    }

    // ----- directories -----

    /** Appends the records of the directory's i-th block, or of the block found in its place, to the table. */
    method ReadDirBlock(dirBlk: Blocks.Blocks, i: nat, prev: nat, tabDir: array?<DirEntry>, nDir: nat, nChunks: nat)
      returns (res: BlockResult, nrBlk: nat, tabDir': array?<DirEntry>, nDir': nat, nChunks': nat)
      requires geo.Valid() && dirBlk.fs == geo.fs && dirBlk.Serving(i) && Carries(dirBlk, i, prev)
      requires IsDirectory(dirBlk.fs, dirBlk.inode) && i < FileBlockCount(dirBlk.fs, dirBlk.inode)
      requires TableOk(tabDir, nDir, nChunks)
      modifies dirBlk, dirBlk.extentPath, tabDir, `readFailures, `lookupFaults
      ensures TilesRead(dirBlk.fs, dirBlk.inode, dirBlk.lost, i)
      ensures !res.Died? ==> dirBlk.Serving(i + 1) && Carries(dirBlk, i + 1, nrBlk)
      ensures !res.Died? && UsesExtents(dirBlk.inode) ==> dirBlk.extentPath != null
      ensures dirBlk.extentPath == old(dirBlk.extentPath) || fresh(dirBlk.extentPath)
      ensures TableOk(tabDir', nDir', nChunks') && (tabDir' == tabDir || fresh(tabDir'))
      ensures readFailures == old(readFailures) + if res.Failed? then 1 else 0
      ensures lookupFaults == old(lookupFaults) + if res.Died? then 1 else 0
      ensures res.Done? ==>
                TableContents(tabDir', nDir') ==
                old(TableContents(tabDir, nDir)) +
                Records(dirBlk.fs.Block(Target(dirBlk.fs, dirBlk.inode, dirBlk.lost, i)), 0)
    {
      hide IsDirectory, Readable, Answered, Target, Stalled, Records, ReadSectorsEx, Tiles, Blocks.Blocks.Serving,
        Blocks.Blocks.Valid;
      tabDir', nDir', nChunks' := tabDir, nDir, nChunks;
      ServingIsReadable(dirBlk, i);
      DirBlocksTile(dirBlk.fs, dirBlk.inode, dirBlk.lost, i);
      var died;
      nrBlk, died := LookUp(dirBlk, i, prev);
      if died {
        res := Died;
        return;
      }
      SectorReadIsBlock(geo.fs, nrBlk);
      var buffer := ReadSectors(geo.fs.blockSize / 512 * nrBlk, geo.fs.blockSize / 512);
      if buffer.None? {
        res := Failed;
        return;
      }
      res := Done;
      tabDir', nDir', nChunks' := AppendRecords(buffer.value, tabDir, nDir, nChunks);
    }

    /** Reads all records of directory inodeNr into a table that grows by chunks; null for inode 0, for an
        empty directory and when a read fails, and only then. The caller's entry count is `count`, and keeps
        that value for inode 0 and after a failed read. The records are those of the blocks that are found, the
        directory's own unless a failed read of its double-indirect block is needed. `faulted` tells that a null
        buffer was followed in a lookup, or that the destructor ran over the missing path array of an extent
        file, exactly for an empty directory that uses extents. */
    method GetDirEntry(inodeNr: nat, lost: set<nat>, count: nat)
      returns (tabDir: array?<DirEntry>, readDirs: nat, faulted: bool)
      requires Valid() && (inodeNr > 0 ==>
              geo.Group(inodeNr) < |geo.grDesc| && IsDirectory(geo.fs, geo.DiskInode(inodeNr)))
      modifies this, inodesTableCache
      ensures Valid() && (tabDir != null ==> fresh(tabDir) && readDirs < tabDir.Length)
      ensures readFailures >= old(readFailures) && lookupFaults >= old(lookupFaults)
      ensures tabDir == null <==> inodeNr == 0 || readFailures != old(readFailures) ||
                                  lookupFaults != old(lookupFaults) || Size(geo.DiskInode(inodeNr)) == 0
      ensures if inodeNr == 0 || readFailures != old(readFailures) || lookupFaults != old(lookupFaults)
              then readDirs == count
              else readDirs == |ReadRecords(geo.fs, geo.DiskInode(inodeNr), lost)|
      ensures tabDir != null ==> tabDir[..readDirs] == ReadRecords(geo.fs, geo.DiskInode(inodeNr), lost)
      ensures faulted <==> lookupFaults != old(lookupFaults) ||
                           (inodeNr > 0 && readFailures == old(readFailures) && Size(geo.DiskInode(inodeNr)) == 0 &&
                            UsesExtents(geo.DiskInode(inodeNr)))
      ensures InodeCache.Within(old(groupDescQueue), groupDescQueue, 1)
    {
      hide IsDirectory, Size;
      tabDir, readDirs, faulted := null, count, false;
      var found := GetExt4Inode(inodeNr);
      InodeCache.NoRequest(groupDescQueue);
      if inodeNr > 0 {
        InodeCache.OneRequest(old(groupDescQueue), InodeCache.Request(geo.Group(inodeNr), found.Some?));
      }
      if found.None? {
        return;
      }
      tabDir, readDirs, faulted := ReadDirectory(found.value, lost, count);
    }

    /** The records of a directory inode. */
    method ReadDirectory(inode: seq<Byte>, lost: set<nat>, count: nat)
      returns (tabDir: array?<DirEntry>, readDirs: nat, faulted: bool)
      requires geo.Valid() && ValidInode(inode) && IsDirectory(geo.fs, inode)
      modifies `readFailures, `lookupFaults
      ensures readFailures + lookupFaults == old(readFailures + lookupFaults) +
                                             if tabDir == null && Size(inode) > 0 then 1 else 0
      ensures readFailures >= old(readFailures) && lookupFaults >= old(lookupFaults)
      ensures tabDir != null ==> Size(inode) > 0 && fresh(tabDir) && readDirs < tabDir.Length
      ensures tabDir != null ==> tabDir[..readDirs] == ReadRecords(geo.fs, inode, lost)
      ensures tabDir == null ==>
                if Size(inode) > 0 then readDirs == count
                else readDirs == 0 && ReadRecords(geo.fs, inode, lost) == []
      ensures faulted <==> lookupFaults != old(lookupFaults) || (Size(inode) == 0 && UsesExtents(inode))
    {
      hide IsDirectory, Readable, Answered, ReadRecords, DirRecords, CodeBlockCount;
      tabDir, readDirs, faulted := null, 0, false;
      NoRecordsInEmpty(geo.fs, inode, lost);
      var dirBlk := new Blocks.Blocks(geo.fs, inode, lost);
      DirReadable(geo.fs, inode, lost);
      dirBlk.StartServes();
      var nBlock := CodeBlockCount(Size(inode), geo.fs.blockSize);
      DirCount(geo.fs, inode);
      if Size(inode) > 0 {
        tabDir, readDirs, faulted := ReadDirBlocks(dirBlk, nBlock);
        if faulted {
          return null, count, true;
        }
        if tabDir == null {
          readDirs := count;
        }
      } else if UsesExtents(inode) {
        return null, 0, true;
      }
      dirBlk.Flush();
    }

    /** The block loop of `get_dir_entry`. */
    method ReadDirBlocks(dirBlk: Blocks.Blocks, nBlock: nat)
      returns (tabDir: array?<DirEntry>, nDir: nat, died: bool)
      requires geo.Valid() && dirBlk.fs == geo.fs && dirBlk.Serving(0) && dirBlk.extentPath == null
      requires IsDirectory(dirBlk.fs, dirBlk.inode) && 0 < nBlock == FileBlockCount(dirBlk.fs, dirBlk.inode)
      modifies dirBlk, `readFailures, `lookupFaults
      ensures lookupFaults == old(lookupFaults) + if died then 1 else 0
      ensures readFailures == old(readFailures) + if tabDir == null && !died then 1 else 0
      ensures died ==> tabDir == null
      ensures !died ==>
                dirBlk.Valid() && (dirBlk.extentPath != null <==> UsesExtents(dirBlk.inode))
      ensures dirBlk.extentPath != null ==> fresh(dirBlk.extentPath)
      ensures tabDir != null ==> fresh(tabDir) && nDir < tabDir.Length
      ensures tabDir != null ==> tabDir[..nDir] == ReadRecords(dirBlk.fs, dirBlk.inode, dirBlk.lost)
    {
      hide Readable, Answered, Target, Stalled, Carries, Tiles, TilesRead, Records, IsDirectory,
        FileBlockCount, Blocks.PathOk, Blocks.Blocks.Conserved, RootDepth;
      var nChunks, nrBlk := 0, 0;
      tabDir, nDir := null, 0;
      AllBlocksTile(dirBlk.fs, dirBlk.inode, dirBlk.lost);
      NothingCarried(dirBlk);
      for i := 0 to nBlock
        invariant dirBlk.Serving(i) && Carries(dirBlk, i, nrBlk)
        invariant dirBlk.extentPath != null ==> fresh(dirBlk.extentPath)
        invariant UsesExtents(dirBlk.inode) && i > 0 ==> dirBlk.extentPath != null
        invariant TableOk(tabDir, nDir, nChunks) && (tabDir != null ==> fresh(tabDir))
        invariant readFailures == old(readFailures) && lookupFaults == old(lookupFaults)
        invariant TableContents(tabDir, nDir) == ReadRecordsUpTo(dirBlk.fs, dirBlk.inode, dirBlk.lost, i)
      {
        var res;
        res, nrBlk, tabDir, nDir, nChunks := ReadDirBlock(dirBlk, i, nrBlk, tabDir, nDir, nChunks);
        if !res.Done? {
          return null, 0, res.Died?;
        }
      }
      died := false;
      SomeRecords(dirBlk.fs, dirBlk.inode, dirBlk.lost, nBlock);
    }

    // ----- copying a file -----

    /** What a copy of inode n produces, in the chunks it is written in. */
    function SourceOf(n: nat, lost: set<nat>): Config
      requires Copyable(n, lost)
    {
      if Size(geo.DiskInode(n)) == 0 then Config([], UsesExtents(geo.DiskInode(n)))
      else ConfigOf(geo.fs, geo.DiskInode(n), lost)
    }

    predicate Copyable(n: nat, lost: set<nat>) {
      && geo.Valid() && n > 0 && geo.Group(n) < |geo.grDesc|
      && (Size(geo.DiskInode(n)) > 0 ==> Readable(geo.fs, geo.DiskInode(n), lost))
    }

    /** Maps, reads and writes chunk k of the file: the protocol's steps from fetching it to having
        written it, failing or crashing. */
    method CopyBlock(fileBlk: Blocks.Blocks, k: nat, len: nat, prev: nat, hnd: LocalFile, params: CopyParams,
                     ghost before: seq<Byte>, ghost run: seq<State>)
      returns (res: BlockResult, nrBlk: nat, ghost run': seq<State>)
      requires geo.Valid() && fileBlk.fs == geo.fs && fileBlk.Serving(k) && Carries(fileBlk, k, prev)
      requires k < FileBlockCount(fileBlk.fs, fileBlk.inode) && len == ChunkLength(fileBlk.fs, fileBlk.inode, k)
      requires Reached(ConfigOf(fileBlk.fs, fileBlk.inode, fileBlk.lost), run, Fetch(k), before, hnd.contents,
                       params.intFlag, false)
      modifies fileBlk, fileBlk.extentPath, hnd, params`intFlag, `readFailures, `lookupFaults
      ensures IoFailures(hnd) == old(IoFailures(hnd)) + if res.Failed? then 1 else 0
      ensures lookupFaults == old(lookupFaults) + if res.Died? then 1 else 0
      ensures !res.Died? ==> fileBlk.Serving(k + 1) && Carries(fileBlk, k + 1, nrBlk)
      ensures !res.Died? && UsesExtents(fileBlk.inode) ==> fileBlk.extentPath != null
      ensures fileBlk.extentPath == old(fileBlk.extentPath) || fresh(fileBlk.extentPath)
      ensures old(params.intFlag) ==> params.intFlag
      ensures var c := ConfigOf(fileBlk.fs, fileBlk.inode, fileBlk.lost);
              && run <= run'
              && Reached(c, run', PointAfter(c, res, k), before, hnd.contents, params.intFlag, false)
              && IsPrefix(old(hnd.contents), hnd.contents) && IsPrefix(hnd.contents, old(hnd.contents) + c.chunks[k])
              && (res.Done? ==> hnd.contents == old(hnd.contents) + c.chunks[k])
    {
      hide Readable, Target, Answered, Stalled, ReadSectorsEx, Reached, CopierStep, Fs.Block, ChunkLength,
        FileBlockCount, ConfigOf, UsesExtents, ValidInode, Blocks.Blocks.Serving, Blocks.Blocks.Valid;
      ServingIsReadable(fileBlk, k);
      ghost var c := ConfigOf(fileBlk.fs, fileBlk.inode, fileBlk.lost);
      ChunkOfBlock(fileBlk.fs, fileBlk.inode, fileBlk.lost, k);
      params.Meanwhile();
      run' := Meanwhile(c, run, Fetch(k), before, hnd.contents, old(params.intFlag), false, params.intFlag);
      var died;
      nrBlk, died := LookUp(fileBlk, k, prev);
      if died {
        run' := LookupDied(c, run', k, before, hnd.contents, params.intFlag);
        res := Died;
        return;
      }
      SectorReadIsBlock(geo.fs, nrBlk);
      var buffer := ReadSectors(geo.fs.blockSize / 512 * nrBlk, geo.fs.blockSize / 512);
      if buffer.None? {
        run' := FetchFails(c, run', k, before, hnd.contents, params.intFlag);
        res := Failed;
        return;
      }
      var ok := hnd.WriteFile(buffer.value[..len]);
      res := if ok then Done else Failed;
      ghost var n := |hnd.contents| - |old(hnd.contents)|;
      assert hnd.contents == old(hnd.contents) + c.chunks[k][..n];
      run' := WroteSome(c, run', k, before, old(hnd.contents), params.intFlag, n);
      run' := WriteEnds(c, run', k, n, ok, before, hnd.contents, params.intFlag);
    }

    /** A test of the cancel flag, which may have been raised meanwhile. */
    method TestFlag(params: CopyParams, ghost c: Config, ghost run: seq<State>, ghost p: Copier,
                    ghost before: seq<Byte>, ghost contents: seq<Byte>)
      returns (cancelled: bool, ghost run': seq<State>)
      requires Reached(c, run, p, before, contents, params.intFlag, false)
      modifies params`intFlag, params`raisedReads
      ensures cancelled == params.intFlag && (old(params.intFlag) ==> cancelled)
      ensures params.raisedReads == old(params.raisedReads) + if cancelled then 1 else 0
      ensures run <= run' && Reached(c, run', p, before, contents, params.intFlag, false)
    {
      hide Reached;
      params.Meanwhile();
      run' := Meanwhile(c, run, p, before, contents, old(params.intFlag), false, params.intFlag);
      cancelled := params.PollIntFlag();
    }

    /** The loop over all blocks but the last, with the cancel flag read before each. */
    method CopyFullBlocks(fileBlk: Blocks.Blocks, last: nat, hnd: LocalFile, params: CopyParams,
                          ghost run: seq<State>)
      returns (res: BlockResult, copied: nat, nrBlk: nat, ghost run': seq<State>)
      requires geo.Valid() && fileBlk.fs == geo.fs && fileBlk.Serving(0) && fileBlk.extentPath == null
      requires last + 1 == FileBlockCount(fileBlk.fs, fileBlk.inode)
      requires Reached(ConfigOf(fileBlk.fs, fileBlk.inode, fileBlk.lost), run, CheckFlag(0), hnd.contents,
                       hnd.contents, params.intFlag, false)
      modifies fileBlk, hnd, params`intFlag, params`raisedReads, `readFailures, `lookupFaults
      ensures IoFailures(hnd) == old(IoFailures(hnd)) + if res.Failed? then 1 else 0
      ensures lookupFaults == old(lookupFaults) + if res.Died? then 1 else 0
      ensures copied <= last && (fileBlk.extentPath != null ==> fresh(fileBlk.extentPath))
      ensures !res.Died? ==> fileBlk.Valid()
      ensures !res.Died? && UsesExtents(fileBlk.inode) ==> (fileBlk.extentPath == null <==> res.Done? && copied == 0)
      ensures !res.Died? && !UsesExtents(fileBlk.inode) ==> fileBlk.extentPath == null
      ensures res.Done? ==> fileBlk.Serving(copied) && Carries(fileBlk, copied, nrBlk)
      ensures res.Done? ==>
                hnd.contents == CopiedTo(fileBlk.fs, fileBlk.inode, fileBlk.lost, old(hnd.contents), copied)
      ensures res.Done? ==> copied == last || params.intFlag
      ensures res.Done? && copied == last ==> params.raisedReads == old(params.raisedReads)
      ensures !res.Done? ==> params.raisedReads == old(params.raisedReads)
      ensures params.raisedReads >= old(params.raisedReads)
      ensures old(params.intFlag) ==> params.intFlag && res.Done? && copied == 0
      ensures params.raisedReads != old(params.raisedReads) ==> params.intFlag
      ensures PartialCopy(fileBlk.fs, fileBlk.inode, fileBlk.lost, old(hnd.contents), hnd.contents)
      ensures run <= run'
      ensures Reached(ConfigOf(fileBlk.fs, fileBlk.inode, fileBlk.lost), run',
                      match res case Done => FinalCheck(copied) case Failed => Failing case Died => Crashed,
                      old(hnd.contents), hnd.contents, params.intFlag, false)
    {
      hide Readable, Target, Answered, CopiedTo, PartialCopy, IsPrefix, FileBlockCount, Reached, CopierStep,
        ChunkLength, ConfigOf, Carries, Blocks.PathOk, Blocks.Blocks.Conserved, RootDepth;
      ghost var fs, inode, lost, before := fileBlk.fs, fileBlk.inode, fileBlk.lost, hnd.contents;
      ghost var c := ConfigOf(fs, inode, lost);
      copied, nrBlk, run' := 0, 0, run;
      ReadableAnswers(fs, inode, lost);
      NothingCopied(fs, inode, lost, before);
      NothingCarried(fileBlk);
      while copied < last
        invariant copied <= last && fileBlk.Serving(copied) && Carries(fileBlk, copied, nrBlk)
        invariant IoFailures(hnd) == old(IoFailures(hnd)) && lookupFaults == old(lookupFaults)
        invariant fileBlk.extentPath != null ==> fresh(fileBlk.extentPath)
        invariant UsesExtents(inode) ==> (fileBlk.extentPath == null <==> copied == 0)
        invariant params.raisedReads == old(params.raisedReads)
        invariant old(params.intFlag) ==> params.intFlag && copied == 0
        invariant hnd.contents == CopiedTo(fs, inode, lost, before, copied)
        invariant PartialCopy(fs, inode, lost, before, hnd.contents)
        invariant run <= run' && Reached(c, run', CheckFlag(copied), before, hnd.contents, params.intFlag, false)
      {
        var cancelled;
        cancelled, run' := TestFlag(params, c, run', CheckFlag(copied), before, hnd.contents);
        run' := FlagTested(c, run', copied, before, hnd.contents, params.intFlag);
        if cancelled {
          res := Done;
          return;
        }
        ChunkOfBlock(fs, inode, lost, copied);
        res, nrBlk, run' := CopyBlock(fileBlk, copied, geo.fs.blockSize, nrBlk, hnd, params, before, run');
        BlockCopied(fs, inode, lost, before, copied, hnd.contents);
        if !res.Done? {
          return;
        }
        copied := copied + 1;
      }
      res := Done;
      run' := FlagTested(c, run', copied, before, hnd.contents, params.intFlag);
    }

    /** The copy of a non-empty file. With error 0, and unless a lookup dies, the local file has been extended by
        what the reader finds, and that is the outcome unless a read or write fails or a test of the cancel flag
        finds it raised; then it has been extended by a prefix. A flag raised from the start is always found.
        `faulted` tells that a lookup died, or that the destructor ran over the missing path array of an extent
        file: exactly when a cancellation, not a failure, came before the first block. The whole is a run of the
        protocol's copying thread. */
    method CopyBlocks(inode: seq<Byte>, lost: set<nat>, hnd: LocalFile, params: CopyParams, ghost run: seq<State>)
      returns (error: int, faulted: bool, ghost run': seq<State>)
      requires geo.Valid() && ValidInode(inode) && Size(inode) > 0 && Readable(geo.fs, inode, lost)
      requires Reached(ConfigOf(geo.fs, inode, lost), run, CheckFlag(0), hnd.contents, hnd.contents, params.intFlag,
                       false)
      modifies hnd, params`intFlag, params`raisedReads, `readFailures, `lookupFaults
      ensures error == if IoFailures(hnd) == old(IoFailures(hnd)) && params.raisedReads == old(params.raisedReads)
                       then 0 else -1
      ensures old(params.intFlag) ==> params.raisedReads != old(params.raisedReads)
      ensures params.raisedReads != old(params.raisedReads) ==> params.intFlag
      ensures error == 0 && !faulted ==> hnd.contents == old(hnd.contents) + ReadContents(geo.fs, inode, lost)
      ensures PartialCopy(geo.fs, inode, lost, old(hnd.contents), hnd.contents)
      ensures faulted <==> lookupFaults != old(lookupFaults) ||
                           (UsesExtents(inode) && params.raisedReads != old(params.raisedReads) &&
                            IoFailures(hnd) == old(IoFailures(hnd)) && hnd.contents == old(hnd.contents))
      ensures lookupFaults != old(lookupFaults) ==> error == 0
      ensures run <= run'
      ensures Reached(ConfigOf(geo.fs, inode, lost), run', if faulted then Crashed else Leaving, old(hnd.contents),
                      hnd.contents, params.intFlag, error != 0)
    {
      hide Readable, Target, Answered, CopiedTo, PartialCopy, IsPrefix, ReadContents, CodeTail, CodeLastBlock, CeilDiv,
        TailLength, Reached, CopierStep, ConfigOf, Carries, Blocks.PathOk, Blocks.Blocks.Conserved, RootDepth,
        FileBlockCount, Size, ChunkLength;
      error, faulted := -1, false;
      ghost var c, before := ConfigOf(geo.fs, inode, lost), hnd.contents;
      var fileBlk := new Blocks.Blocks(geo.fs, inode, lost);
      fileBlk.StartServes();
      var size, bs := Size(inode), geo.fs.blockSize;
      ReadableCount(geo.fs, inode, lost);
      ReadableAnswers(geo.fs, inode, lost);
      var last := CodeLastBlock(size, bs);
      NothingCopied(geo.fs, inode, lost, before);
      var res, copied, nrBlk;
      res, copied, nrBlk, run' := CopyFullBlocks(fileBlk, last, hnd, params, run);
      if res.Died? {
        return 0, true, run';
      }
      if res.Failed? {
        fileBlk.Flush();
        run' := FailureReported(c, run', before, hnd.contents, params.intFlag);
        return;
      }
      CopiedGrows(geo.fs, inode, lost, before, copied);
      var cancelled;
      cancelled, run' := TestFlag(params, c, run', FinalCheck(copied), before, hnd.contents);
      run' := FinallyTested(c, run', copied, before, hnd.contents, params.intFlag);
      if cancelled {
        if UsesExtents(inode) && fileBlk.extentPath == null {
          return -1, true, run';
        }
        fileBlk.Flush();
        run' := FailureReported(c, run', before, hnd.contents, params.intFlag);
        return;
      }
      error, faulted, run' := CopyTail(fileBlk, nrBlk, hnd, params, before, run');
      if !faulted {
        fileBlk.Flush();
      }
    }

    /** The last block, cut to the end of the file. */
    method CopyTail(fileBlk: Blocks.Blocks, prev: nat, hnd: LocalFile, params: CopyParams, ghost before: seq<Byte>,
                    ghost run: seq<State>)
      returns (error: int, died: bool, ghost run': seq<State>)
      requires geo.Valid() && fileBlk.fs == geo.fs && ValidInode(fileBlk.inode) && Size(fileBlk.inode) > 0
      requires Readable(fileBlk.fs, fileBlk.inode, fileBlk.lost) && FileBlockCount(fileBlk.fs, fileBlk.inode) > 0
      requires fileBlk.Serving(FileBlockCount(fileBlk.fs, fileBlk.inode) - 1)
      requires Carries(fileBlk, FileBlockCount(fileBlk.fs, fileBlk.inode) - 1, prev)
      requires forall k :: 0 <= k < FileBlockCount(fileBlk.fs, fileBlk.inode) ==>
                 Answered(fileBlk.fs, fileBlk.inode, fileBlk.lost, k)
      requires hnd.contents == CopiedTo(fileBlk.fs, fileBlk.inode, fileBlk.lost, before,
                                        FileBlockCount(fileBlk.fs, fileBlk.inode) - 1)
      requires Reached(ConfigOf(fileBlk.fs, fileBlk.inode, fileBlk.lost), run,
                       Fetch(FileBlockCount(fileBlk.fs, fileBlk.inode) - 1), before, hnd.contents, params.intFlag,
                       false)
      modifies fileBlk, fileBlk.extentPath, hnd, params`intFlag, `readFailures, `lookupFaults
      ensures IoFailures(hnd) == old(IoFailures(hnd)) + if error == 0 then 0 else 1
      ensures lookupFaults == old(lookupFaults) + if died then 1 else 0
      ensures (error == 0 || error == -1) && (died ==> error == 0)
      ensures !died ==> fileBlk.Valid() && (UsesExtents(fileBlk.inode) <==> fileBlk.extentPath != null)
      ensures fileBlk.extentPath == old(fileBlk.extentPath) || fresh(fileBlk.extentPath)
      ensures old(params.intFlag) ==> params.intFlag
      ensures error == 0 && !died ==>
                hnd.contents == before + ReadContents(fileBlk.fs, fileBlk.inode, fileBlk.lost)
      ensures PartialCopy(fileBlk.fs, fileBlk.inode, fileBlk.lost, before, hnd.contents)
      ensures run <= run'
      ensures Reached(ConfigOf(fileBlk.fs, fileBlk.inode, fileBlk.lost), run', if died then Crashed else Leaving,
                      before, hnd.contents, params.intFlag, error != 0)
    {
      hide Readable, Target, Answered, CopiedTo, PartialCopy, IsPrefix, ReadContents, CodeTail, CodeLastBlock, CeilDiv,
        TailLength, Reached, CopierStep, ChunkLength, FileBlockCount, ConfigOf, Size, Carries, Blocks.PathOk,
        Blocks.Blocks.Conserved;
      ghost var fs, inode, lost := fileBlk.fs, fileBlk.inode, fileBlk.lost;
      ReadableCount(fs, inode, lost);
      var last := CodeLastBlock(Size(fileBlk.inode), geo.fs.blockSize);
      ChunkOfBlock(fs, inode, lost, last);
      // The tail is never empty, so the code's test for that never skips this block.
      var res, nrBlk;
      res, nrBlk, run' := CopyBlock(fileBlk, last, CodeTail(Size(fileBlk.inode), geo.fs.blockSize), prev, hnd, params,
                                before, run);
      TailCopied(fs, inode, lost, before, hnd.contents);
      error, died := 0, res.Died?;
      if res.Failed? {
        error := -1;
        run' := FailureReported(ConfigOf(fs, inode, lost), run', before, hnd.contents, params.intFlag);
      }
    }

    /** The part of `read_file` behind the inode lookup. */
    method CopyInode(n: nat, inode: seq<Byte>, lost: set<nat>, hnd: LocalFile, params: CopyParams,
                     ghost run: seq<State>)
      returns (faulted: bool, ghost run': seq<State>)
      requires Copyable(n, lost) && inode == geo.DiskInode(n) && params.error == 0
      requires Reached(SourceOf(n, lost), run, Starting, hnd.contents, hnd.contents, params.intFlag, false)
      modifies hnd, params, `readFailures, `lookupFaults
      ensures params.error == if IoFailures(hnd) == old(IoFailures(hnd)) &&
                                 params.raisedReads == old(params.raisedReads) then 0 else -1
      ensures IsPrefix(old(hnd.contents), hnd.contents)
      ensures IsPrefix(hnd.contents, old(hnd.contents) + SourceOf(n, lost).Source())
      ensures params.error == 0 && !faulted ==> hnd.contents == old(hnd.contents) + SourceOf(n, lost).Source()
      ensures faulted <==> lookupFaults != old(lookupFaults) ||
                           (Size(inode) > 0 && UsesExtents(inode) && params.raisedReads != old(params.raisedReads) &&
                            IoFailures(hnd) == old(IoFailures(hnd)) && hnd.contents == old(hnd.contents))
      ensures lookupFaults != old(lookupFaults) ==> params.error == 0
      ensures run <= run'
      ensures Reached(SourceOf(n, lost), run', if faulted then Crashed else Leaving, old(hnd.contents), hnd.contents,
                      params.intFlag, params.error != 0)
    {
      hide Readable, Described, ReadContents, Contents, ReadsRight, Reached, CopierStep, ConfigOf, Config.Source,
        Config.Written, Size;
      faulted := false;
      SourceIsTheFile(n, lost);
      SizeZero(inode);
      run' := InodeLoaded(SourceOf(n, lost), run, hnd.contents, hnd.contents, params.intFlag);
      assert hnd.contents + [] == hnd.contents;
      if SizeLo(inode) == 0 && SizeHigh(inode) == 0 {
        return;
      }
      var error;
      error, faulted, run' := CopyBlocks(inode, lost, hnd, params, run');
      params.error := error;
    }

    /** `read_file`: everything the reader finds on success, a prefix of it otherwise. The error word says 0 unless
        it has no handle or inode, the inode, a block or a write fails, or a test finds the cancel flag raised;
        a lookup that dies leaves it at 0. It takes the steps of the protocol's copying thread. What it found is
        the file the format describes exactly if every block is read right, whichever reads of the
        double-indirect block fail. A file whose inode is cached is looked up without moving the cache. */
    method ReadFile(inodeNr: nat, lost: set<nat>, hnd: LocalFile?, params: CopyParams)
      returns (faulted: bool, ghost run: seq<State>)
      requires Valid() && (inodeNr > 0 ==> Copyable(inodeNr, lost))
      modifies this, inodesTableCache, hnd, params
      ensures Valid()
      ensures params.error == if hnd != null && inodeNr > 0 && IoFailures(hnd) == old(IoFailures(hnd)) &&
                                 params.raisedReads == old(params.raisedReads) then 0 else -1
      ensures hnd != null && inodeNr > 0 ==>
                && IsPrefix(old(hnd.contents), hnd.contents)
                && IsPrefix(hnd.contents, old(hnd.contents) + SourceOf(inodeNr, lost).Source())
                && (params.error == 0 && !faulted ==>
                      hnd.contents == old(hnd.contents) + SourceOf(inodeNr, lost).Source())
                && Reached(SourceOf(inodeNr, lost), run, if faulted then Crashed else Leaving, old(hnd.contents),
                           hnd.contents, params.intFlag, params.error != 0)
                && run[0].copier == NotStarted
                && (faulted ==> hnd.contents != old(hnd.contents) + SourceOf(inodeNr, lost).Source())
      ensures hnd != null && inodeNr == 0 ==> hnd.contents == old(hnd.contents)
      ensures hnd != null && inodeNr > 0 && params.error == 0 && !faulted &&
              Described(geo.fs, geo.DiskInode(inodeNr)) ==>
                (hnd.contents == old(hnd.contents) + Contents(geo.fs, geo.DiskInode(inodeNr)) <==>
                 Size(geo.DiskInode(inodeNr)) == 0 || ReadsRight(geo.fs, geo.DiskInode(inodeNr), lost))
      ensures faulted <==> lookupFaults != old(lookupFaults) ||
                           (hnd != null && inodeNr > 0 && Size(geo.DiskInode(inodeNr)) > 0 &&
                            UsesExtents(geo.DiskInode(inodeNr)) && params.raisedReads != old(params.raisedReads) &&
                            IoFailures(hnd) == old(IoFailures(hnd)) && hnd.contents == old(hnd.contents))
      ensures lookupFaults != old(lookupFaults) ==> params.error == 0
      ensures inodeNr > 0 && geo.Group(inodeNr) in old(groupDescQueue) ==> groupDescQueue == old(groupDescQueue)
      ensures params.error == 0 ==> inodeNr > 0 && geo.Group(inodeNr) in groupDescQueue
      ensures InodeCache.Within(old(groupDescQueue), groupDescQueue, 1)
    {
      hide Copyable, SourceOf, Readable, Described, Contents, ReadsRight, Reached, Config.Source, Size, Geometry.Valid,
        Geometry.Shaped, Geometry.DiskTable, InodeCache.Sound, InodeCache.Evicted, UsesExtents;
      faulted, run := false, [];
      params.error := 0;
      InodeCache.NoRequest(groupDescQueue);
      if hnd == null {
        params.error := -1;
        return;
      }
      CopyableInode(inodeNr, lost);
      var inode := GetExt4Inode(inodeNr);
      if inodeNr > 0 {
        InodeCache.OneRequest(old(groupDescQueue), InodeCache.Request(geo.Group(inodeNr), inode.Some?));
        run := Started(SourceOf(inodeNr, lost), hnd.contents, params.intFlag);
      }
      if inode.None? {
        params.error := -1;
        if inodeNr > 0 {
          run := LoadFails(SourceOf(inodeNr, lost), run, hnd.contents, hnd.contents, params.intFlag);
          NothingWrittenYet(hnd.contents, SourceOf(inodeNr, lost).Source());
        }
        return;
      }
      ghost var before := hnd.contents;
      faulted, run := CopyInode(inodeNr, inode.value, lost, hnd, params, run);
      if faulted {
        SourceIsTheFile(inodeNr, lost);
        CrashedIsIncomplete(SourceOf(inodeNr, lost), run, before, hnd.contents, params.intFlag, params.error != 0);
      } else if params.error == 0 {
        WholeIsTheFile(inodeNr, lost, before, hnd.contents);
      }
    }

    lemma CopyableInode(n: nat, lost: set<nat>)
      requires Valid() && (n > 0 ==> Copyable(n, lost))
      ensures geo.Shaped() && (n > 0 ==> geo.Group(n) < |geo.grDesc|)
    {
    }

    /** What the chunks amount to, behind what the local file held before. */
    lemma WholeIsTheFile(n: nat, lost: set<nat>, before: seq<Byte>, contents: seq<Byte>)
      requires Copyable(n, lost) && contents == before + SourceOf(n, lost).Source()
      ensures Described(geo.fs, geo.DiskInode(n)) ==>
                (contents == before + Contents(geo.fs, geo.DiskInode(n)) <==>
                 Size(geo.DiskInode(n)) == 0 || ReadsRight(geo.fs, geo.DiskInode(n), lost))
    {
      hide SourceOf, Readable, Described, ReadsRight, Contents, Size, Config.Source;
      SourceIsTheFile(n, lost);
      if Described(geo.fs, geo.DiskInode(n)) {
        ConcatExact(before, SourceOf(n, lost).Source(), before, Contents(geo.fs, geo.DiskInode(n)));
      }
    }

    /** The chunks are non-empty, there are some unless the file is empty, and they make up what is read,
        which is the file exactly if every block is read right. */
    lemma SourceIsTheFile(n: nat, lost: set<nat>)
      requires Copyable(n, lost)
      ensures var c, inode := SourceOf(n, lost), geo.DiskInode(n);
              && c.Valid() && (c.chunks == [] <==> Size(inode) == 0)
              && (Size(inode) == 0 ==> c.Source() == [])
              && (Size(inode) > 0 ==> c.Source() == ReadContents(geo.fs, inode, lost))
              && (Described(geo.fs, inode) ==>
                    (c.Source() == Contents(geo.fs, inode) <==> Size(inode) == 0 || ReadsRight(geo.fs, inode, lost)))
    {
      hide Readable, Described, ReadsRight, ReadContents, Contents, Size;
      var inode := geo.DiskInode(n);
      if Size(inode) > 0 {
        CeilDivBounds(Size(inode), geo.fs.blockSize);
        ConfigIsTheFile(geo.fs, inode, lost);
        if Described(geo.fs, inode) {
          CopyExact(geo.fs, inode, lost);
        }
      }
    }
  }

  /** Where the copying thread is after block k. */
  function PointAfter(c: Config, res: BlockResult, k: nat): Copier {
    match res
    case Done => if k + 1 < |c.chunks| then CheckFlag(k + 1) else Leaving
    case Failed => Failing
    case Died => Crashed
  }

  lemma NothingWrittenYet(before: seq<Byte>, source: seq<Byte>)
    ensures IsPrefix(before, before) && IsPrefix(before, before + source)
  {
  }

  lemma ServingIsReadable(b: Blocks.Blocks, k: nat)
    requires b.Serving(k)
    ensures b.fs.Valid() && ValidInode(b.inode) && Readable(b.fs, b.inode, b.lost) && b.Mounted()
  {
  }

  lemma NothingCarried(b: Blocks.Blocks)
    requires b.fs.Valid() && ValidInode(b.inode)
    ensures Carries(b, 0, 0)
  {
  }

  lemma SizeZero(inode: seq<Byte>)
    requires ValidInode(inode)
    ensures Size(inode) == 0 <==> SizeLo(inode) == 0 && SizeHigh(inode) == 0
  {
  }

  /** For an addressable file the code's arithmetic finds its last block and that block's length. */
  lemma ReadableCount(fs: Fs, inode: seq<Byte>, lost: set<nat>)
    requires fs.Valid() && ValidInode(inode) && Readable(fs, inode, lost) && Size(inode) > 0
    ensures var last := CodeLastBlock(Size(inode), fs.blockSize);
            && last + 1 == FileBlockCount(fs, inode)
            && CodeTail(Size(inode), fs.blockSize) == ChunkLength(fs, inode, last)
            && ChunkLength(fs, inode, last) == TailLength(Size(inode), fs.blockSize)
  {
    var size, bs := Size(inode), fs.blockSize;
    SizeBound(size, bs);
    CeilDivBounds(size, bs);
    CopyArithmeticExact(size, bs);
  }

  /** A file of at most 2^32 blocks of at most 64K leaves 64-bit sums room. */
  lemma SizeBound(size: nat, bs: nat)
    requires 0 < bs <= 65536 && CeilDiv(size, bs) <= TWO_32
    ensures size + bs < TWO_64
  {
  }

  // ----- the growing table of directory entries -----

  const CHUNK_SIZE := 256

  /** Records of the first n blocks of a directory. */
  ghost function RecordsUpTo(fs: Fs, inode: seq<Byte>, n: nat): seq<DirEntry>
    requires fs.Valid() && ValidInode(inode) && IsDirectory(fs, inode) && n <= FileBlockCount(fs, inode)
  {
    if n == 0 then [] else RecordsUpTo(fs, inode, n - 1) + Records(fs.Block(Map(fs, inode, n - 1)), 0)
  }

  ghost function DirRecords(fs: Fs, inode: seq<Byte>): seq<DirEntry>
    requires fs.Valid() && ValidInode(inode) && IsDirectory(fs, inode)
  {
    RecordsUpTo(fs, inode, FileBlockCount(fs, inode))
  }

  /** A file without holes, addressed right, whose blocks are tiled by records. */
  ghost predicate IsDirectory(fs: Fs, inode: seq<Byte>)
    requires fs.Valid() && ValidInode(inode)
  {
    && FileBlockCount(fs, inode) < TWO_32 && (!UsesExtents(inode) ==> FileBlockCount(fs, inode) < Capacity(fs))
    && WellMapped(fs, inode) && Readable(fs, inode, {}) && AddressedRight(fs, inode, {})
    && forall k :: 0 <= k < FileBlockCount(fs, inode) ==> Mapped(fs, inode, k) && Tiles(fs.Block(Map(fs, inode, k)), 0)
  }

  /** The block found for request k is tiled by records. */
  ghost predicate TilesRead(fs: Fs, inode: seq<Byte>, lost: set<nat>, k: nat)
    requires fs.Valid() && ValidInode(inode)
  {
    Answered(fs, inode, lost, k) && Tiles(fs.Block(Target(fs, inode, lost, k)), 0)
  }

  /** Whichever reads fail, every block read for a directory is one of its own, so records tile it. */
  lemma DirBlocksTile(fs: Fs, inode: seq<Byte>, lost: set<nat>, k: nat)
    requires fs.Valid() && ValidInode(inode) && IsDirectory(fs, inode) && k < FileBlockCount(fs, inode)
    ensures TilesRead(fs, inode, lost, k)
  {
    hide Chase, Capacity, Tiles, Trunk, FileBlockCount, Served, Answer, ValidRoot;
    ReadableAnswers(fs, inode, {});
    if UsesExtents(inode) {
      TargetIsMap(fs, inode, {}, k);
    } else {
      var k' := TargetInFile(fs, inode, lost, k);
      assert Mapped(fs, inode, k') && Tiles(fs.Block(Map(fs, inode, k')), 0);
    }
  }

  lemma AllBlocksTile(fs: Fs, inode: seq<Byte>, lost: set<nat>)
    requires fs.Valid() && ValidInode(inode) && IsDirectory(fs, inode)
    ensures forall k :: 0 <= k < FileBlockCount(fs, inode) ==> TilesRead(fs, inode, lost, k)
  {
    hide IsDirectory, TilesRead, FileBlockCount;
    forall k | 0 <= k < FileBlockCount(fs, inode)
      ensures TilesRead(fs, inode, lost, k)
    {
      DirBlocksTile(fs, inode, lost, k);
    }
  }

  lemma DirReadable(fs: Fs, inode: seq<Byte>, lost: set<nat>)
    requires fs.Valid() && ValidInode(inode) && IsDirectory(fs, inode)
    ensures Readable(fs, inode, lost)
  {
    hide WellMapped, Capacity;
    ReadableFiles(fs, inode, lost);
  }

  /** What `get_dir_entry` finds in the first n blocks. */
  ghost function ReadRecordsUpTo(fs: Fs, inode: seq<Byte>, lost: set<nat>, n: nat): seq<DirEntry>
    requires fs.Valid() && ValidInode(inode) && forall k :: 0 <= k < n ==> TilesRead(fs, inode, lost, k)
  {
    if n == 0 then []
    else
      assert TilesRead(fs, inode, lost, n - 1);
      ReadRecordsUpTo(fs, inode, lost, n - 1) + Records(fs.Block(Target(fs, inode, lost, n - 1)), 0)
  }

  ghost function ReadRecords(fs: Fs, inode: seq<Byte>, lost: set<nat>): seq<DirEntry>
    requires fs.Valid() && ValidInode(inode) && IsDirectory(fs, inode)
  {
    AllBlocksTile(fs, inode, lost);
    ReadRecordsUpTo(fs, inode, lost, FileBlockCount(fs, inode))
  }

  /** Those are the directory's records unless a failed read is needed. */
  lemma {:induction false} RecordsReadRight(fs: Fs, inode: seq<Byte>, lost: set<nat>, n: nat)
    requires fs.Valid() && ValidInode(inode) && IsDirectory(fs, inode) && n <= FileBlockCount(fs, inode)
    requires NothingLost(fs, inode, lost)
    ensures forall k :: 0 <= k < n ==> TilesRead(fs, inode, lost, k)
    ensures ReadRecordsUpTo(fs, inode, lost, n) == RecordsUpTo(fs, inode, n)
  {
    hide WellMapped, Readable, AddressedRight, TilesRead, NothingLost, Target, Answered, Records, Tiles, FileBlockCount,
      Map, Mapped, Capacity;
    AllBlocksTile(fs, inode, lost);
    if n > 0 {
      RecordsReadRight(fs, inode, lost, n - 1);
      DirTarget(fs, inode, lost, n - 1);
    }
  }

  lemma DirTarget(fs: Fs, inode: seq<Byte>, lost: set<nat>, k: nat)
    requires fs.Valid() && ValidInode(inode) && IsDirectory(fs, inode) && k < FileBlockCount(fs, inode)
    requires NothingLost(fs, inode, lost)
    ensures Answered(fs, inode, lost, k) && Mapped(fs, inode, k)
    ensures Target(fs, inode, lost, k) == Map(fs, inode, k)
  {
    hide Target, Answered, NothingLost, Tiles, FileBlockCount, Map, Readable, AddressedRight, WellMapped, Capacity;
    DirBlocksTile(fs, inode, lost, k);
    assert Mapped(fs, inode, k);
    hide Mapped;
    KeptTarget(fs, inode, lost, k);
    TargetIsMap(fs, inode, {}, k);
  }

  lemma DirReadRight(fs: Fs, inode: seq<Byte>, lost: set<nat>)
    requires fs.Valid() && ValidInode(inode) && IsDirectory(fs, inode) && NothingLost(fs, inode, lost)
    ensures ReadRecords(fs, inode, lost) == DirRecords(fs, inode)
  {
    hide IsDirectory, NothingLost, FileBlockCount;
    RecordsReadRight(fs, inode, lost, FileBlockCount(fs, inode));
  }

  lemma NoRecordsInEmpty(fs: Fs, inode: seq<Byte>, lost: set<nat>)
    requires fs.Valid() && ValidInode(inode) && IsDirectory(fs, inode)
    ensures Size(inode) == 0 ==> DirRecords(fs, inode) == [] && ReadRecords(fs, inode, lost) == []
  {
    hide IsDirectory;
    CeilDivBounds(Size(inode), fs.blockSize);
  }

  /** Every directory has a record, and so has what is read for it. */
  lemma SomeRecords(fs: Fs, inode: seq<Byte>, lost: set<nat>, n: nat)
    requires fs.Valid() && ValidInode(inode) && IsDirectory(fs, inode) && 0 < n <= FileBlockCount(fs, inode)
    ensures forall k :: 0 <= k < n ==> TilesRead(fs, inode, lost, k)
    ensures RecordsUpTo(fs, inode, n) != [] && ReadRecordsUpTo(fs, inode, lost, n) != []
  {
    AllBlocksTile(fs, inode, lost);
    hide WellMapped, Readable, AddressedRight, Target, Answered, FileBlockCount, Map, Mapped;
    assert TilesRead(fs, inode, lost, n - 1);
  }

  /** The code's 32-bit block count is the directory's. */
  lemma DirCount(fs: Fs, inode: seq<Byte>)
    requires fs.Valid() && ValidInode(inode) && IsDirectory(fs, inode)
    ensures CodeBlockCount(Size(inode), fs.blockSize) == FileBlockCount(fs, inode)
    ensures FileBlockCount(fs, inode) == 0 <==> Size(inode) == 0
  {
    SizeBound(Size(inode), fs.blockSize);
    CeilDivBounds(Size(inode), fs.blockSize);
  }

  /** The table always has room for one entry more than it holds. */
  ghost predicate TableOk(tabDir: array?<DirEntry>, nDir: nat, nChunks: nat) {
    if nChunks == 0 then tabDir == null && nDir == 0
    else tabDir != null && tabDir.Length == CHUNK_SIZE * nChunks && nDir < CHUNK_SIZE * nChunks
  }

  ghost function TableContents(tabDir: array?<DirEntry>, nDir: nat): seq<DirEntry>
    requires tabDir != null ==> nDir <= tabDir.Length
    reads tabDir
  {
    if tabDir == null then [] else tabDir[..nDir]
  }

  method AddEntry(tabDir: array?<DirEntry>, nDir: nat, nChunks: nat, e: DirEntry)
    returns (tabDir': array<DirEntry>, nDir': nat, nChunks': nat)
    requires TableOk(tabDir, nDir, nChunks)
    modifies tabDir
    ensures TableOk(tabDir', nDir', nChunks') && (tabDir' == tabDir || fresh(tabDir'))
    ensures TableContents(tabDir', nDir') == old(TableContents(tabDir, nDir)) + [e]
  {
    nDir', nChunks' := nDir + 1, nChunks;
    if nDir' >= CHUNK_SIZE * nChunks {
      nChunks' := nChunks + 1;
      tabDir' := new DirEntry[CHUNK_SIZE * nChunks'](_ => NO_ENTRY);
      if tabDir != null {
        forall i | 0 <= i < nDir {
          tabDir'[i] := tabDir[i];
        }
      }
    } else {
      tabDir' := tabDir;
    }
    tabDir'[nDir' - 1] := e;
  }

  method AppendRecords(buffer: seq<Byte>, tabDir: array?<DirEntry>, nDir: nat, nChunks: nat)
    returns (tabDir': array?<DirEntry>, nDir': nat, nChunks': nat)
    requires TableOk(tabDir, nDir, nChunks) && Tiles(buffer, 0)
    modifies tabDir
    ensures TableOk(tabDir', nDir', nChunks') && (tabDir' == tabDir || fresh(tabDir'))
    ensures TableContents(tabDir', nDir') == old(TableContents(tabDir, nDir)) + Records(buffer, 0)
  {
    hide EntryAt, Tiles, Records, RecordFits;
    tabDir', nDir', nChunks' := tabDir, nDir, nChunks;
    ghost var start, all, done := TableContents(tabDir, nDir), Records(buffer, 0), [];
    assert [] + all == all && start + [] == start;
    var offset := 0;
    while offset < |buffer|
      invariant offset <= |buffer| && Tiles(buffer, offset)
      invariant TableOk(tabDir', nDir', nChunks') && (tabDir' == tabDir || fresh(tabDir'))
      invariant TableContents(tabDir', nDir') == start + done
      invariant done + Records(buffer, offset) == all
      decreases |buffer| - offset
    {
      RecordsStep(buffer, offset);
      var dirEntry := EntryAt(buffer, offset);
      MoveOver(start, done, dirEntry, Records(buffer, offset + dirEntry.recLen));
      tabDir', nDir', nChunks' := AddEntry(tabDir', nDir', nChunks', dirEntry);
      done := done + [dirEntry];
      offset := offset + dirEntry.recLen;
    }
    NoRecordsLeft(buffer);
    assert done + [] == done;
  }

  lemma MoveOver(start: seq<DirEntry>, done: seq<DirEntry>, e: DirEntry, rest: seq<DirEntry>)
    ensures done + ([e] + rest) == (done + [e]) + rest
    ensures (start + done) + [e] == start + (done + [e])
  {
  }
}
