/** Mounting one partition: from the superblock's bytes to the geometry every later access relies on. */
module Mounting {
  import opened Bytes
  import opened Volume
  import opened GroupTable
  import opened Ext2Partition
  import opened Holes

  /** 1024 << s_log_block_size. */
  function ShiftedBlockSize(log: nat): (size: nat)
    ensures size >= 1024
  {
    if log == 0 then 1024 else 2 * ShiftedBlockSize(log - 1)
  }

  /** The seven block sizes of the format. */
  lemma BlockSizes(log: nat)
    requires log <= 6
    ensures ShiftedBlockSize(log) == [1024, 2048, 4096, 8192, 16384, 32768, 65536][log]
  {
    if log > 0 {
      BlockSizes(log - 1);
    }
  }

  function BlockSize(sb: seq<Byte>): nat
    requires IsSuperBlock(sb)
  {
    ShiftedBlockSize(LogBlockSize(sb))
  }

  function Groups(sb: seq<Byte>): nat
    requires IsSuperBlock(sb) && BlocksPerGroup(sb) > 0
  {
    GroupCount(BlocksCountLo(sb), FirstDataBlock(sb), BlocksPerGroup(sb))
  }

  /** A descriptor reaches to the last field of it the code uses. */
  predicate HoldsTableBlock(sb: seq<Byte>)
    requires IsSuperBlock(sb)
  {
    DescSize(sb) >= if Has64Bit(sb) then 44 else MIN_DESC_SIZE
  }

  /** What a superblock with the right magic number must satisfy: the code checks none of it. */
  predicate WellFormedSuper(sb: seq<Byte>) {
    && IsSuperBlock(sb)
    && ValidBlockSize(BlockSize(sb))
    && BlocksPerGroup(sb) > 0 && InodesPerGroup(sb) > 0
    && HoldsTableBlock(sb) && DescSize(sb) <= BlockSize(sb)
    && Groups(sb) + BlockSize(sb) < TWO_32
    && Times(GdbCount(Groups(sb), BlockSize(sb), DescSize(sb)), BlockSize(sb)) < TWO_31
    && Times(InodeSize(sb), InodesPerGroup(sb)) + 512 < TWO_32
  }

  /** The superblock of a partition: 1024 bytes from byte 1024 on. */
  function SuperBlock(part: Partition): (sb: seq<Byte>)
    ensures IsSuperBlock(sb)
  {
    DiskBytes(part, 1024, 1024)
  }

  /** How an attempt to mount turns out. */
  datatype Attempt = SuperblockUnreadable | NotCompatible | Mountable

  /** The attempt on a partition, given the outcome of its two reads. */
  function AttemptOn(part: Partition, superReadable: bool, tableReadable: bool): Attempt {
    if !superReadable then SuperblockUnreadable
    else if SuperMagic(SuperBlock(part)) == SUPER_MAGIC && tableReadable then Mountable
    else NotCompatible
  }

  /** A partition that is no ext2/3/4 file system, or whose superblock is well formed. */
  predicate Sane(part: Partition) {
    SuperMagic(SuperBlock(part)) == SUPER_MAGIC ==> WellFormedSuper(SuperBlock(part))
  }

  /** Its descriptors fit the structure they are copied to. */
  predicate DescriptorsFit(part: Partition) {
    SuperMagic(SuperBlock(part)) == SUPER_MAGIC ==> DescSize(SuperBlock(part)) <= GROUP_DESC_BYTES
  }

  /** The geometry the superblock announces, with the descriptors found from block 1 on. */
  ghost predicate MountedAs(geo: Geometry, part: Partition) {
    var sb := SuperBlock(part);
    && SuperMagic(sb) == SUPER_MAGIC && WellFormedSuper(sb) && DescSize(sb) <= GROUP_DESC_BYTES
    && geo.Shaped() && geo.fs == Fs(part, BlockSize(sb))
    && geo.inodesPerGroup == InodesPerGroup(sb) && geo.inodeSize == InodeSize(sb) && geo.is64 == Has64Bit(sb)
    && |geo.grDesc| == Groups(sb)
    && forall g :: 0 <= g < Groups(sb) ==>
         geo.grDesc[g] == DiskBytes(part, BlockSize(sb) + DescOffset(DescSize(sb), g), DescSize(sb))
  }

  /** `get_ext2_sb` on an unmounted partition, with the outcome of its two reads. It succeeds exactly on a
      mountable partition whose descriptors fit the structure they are copied to; if they do not fit, the
      copying runs past its array. */
  method Mount(part: Partition, superReadable: bool, tableReadable: bool) returns (r: Option<Geometry>, overrun: bool)
    requires part.sectorSize == 512 && Sane(part)
    ensures r.Some? <==> AttemptOn(part, superReadable, tableReadable) == Mountable && DescriptorsFit(part)
    ensures overrun <==> AttemptOn(part, superReadable, tableReadable) == Mountable && !DescriptorsFit(part)
    ensures r.Some? ==> MountedAs(r.value, part)
    ensures overrun ==> DescSize(SuperBlock(part)) > 64
    ensures r.Some? ==> DescSize(SuperBlock(part)) <= 64
  {
    hide SuperMagic, WellFormedSuper, Stored, DescOffset, BlockSize, DescSize, InodeSize, InodesPerGroup, Has64Bit,
      ReadSectorsEx, DiskBytes, GroupCount, GdbCount, Geometry.Shaped;
    if !superReadable {
      return None, false;
    }
    SuperBlockSectors(part);
    var sb := ReadSectorsEx(part, 2, 2);
    if SuperMagic(sb) != SUPER_MAGIC {
      return None, false;
    }
    SuperFacts(sb);
    var grDesc;
    grDesc, overrun := ReadGroupDescriptors(part, BlockSize(sb), Groups(sb), DescSize(sb), tableReadable);
    if grDesc == null {
      return None, overrun;
    }
    var geo := Geometry(Fs(part, BlockSize(sb)), InodesPerGroup(sb), InodeSize(sb), Has64Bit(sb),
                        seq(Groups(sb), g requires 0 <= g < Groups(sb) &&
                                DescSize(sb) + GROUP_DESC_BYTES * g <= |grDesc[..]|
                                        reads grDesc => Stored(grDesc[..], DescSize(sb), g)));
    GeometryShaped(geo, sb);
    return Some(geo), false;
  }

  /** Sectors 2 and 3 are the superblock exactly if sectors have 512 bytes; only then they start where it does. */
  lemma SuperBlockSectors(part: Partition)
    ensures ReadSectorsEx(part, 2, 2) == SuperBlock(part) <==> part.sectorSize == 512
    ensures 2 * part.sectorSize == 1024 <==> part.sectorSize == 512
  {
  }

  lemma SuperFacts(sb: seq<Byte>)
    requires WellFormedSuper(sb)
    ensures IsSuperBlock(sb) && BlocksPerGroup(sb) > 0
    ensures 0 < DescSize(sb) <= BlockSize(sb) && BlockSize(sb) % 512 == 0 && Groups(sb) + BlockSize(sb) < TWO_32
    ensures Groups(sb) > 0 && GdbCount(Groups(sb), BlockSize(sb), DescSize(sb)) * BlockSize(sb) < TWO_31
  {
    hide ShiftedBlockSize, DescSize, GroupCount, GdbCount, Has64Bit, Le32, Le16;
    GroupCountPositive(BlocksCountLo(sb), FirstDataBlock(sb), BlocksPerGroup(sb));
  }

  lemma GeometryShaped(geo: Geometry, sb: seq<Byte>)
    requires WellFormedSuper(sb) && geo.fs.part.sectorSize == 512 && geo.fs.blockSize == BlockSize(sb)
    requires geo.inodesPerGroup == InodesPerGroup(sb) && geo.inodeSize == InodeSize(sb) && geo.is64 == Has64Bit(sb)
    requires forall g :: 0 <= g < |geo.grDesc| ==> |geo.grDesc[g]| == DescSize(sb)
    ensures geo.Shaped()
  {
  }

  // ----- what the format says -----

  datatype Root = Three | Five | Seven
  {
    function Times(p: nat): nat {
      match this
      case Three => 3 * p
      case Five => 5 * p
      case Seven => 7 * p
    }
  }

  /** n is one of p, p * root, p * root * root, ... */
  predicate IsPower(n: nat, root: Root, p: nat)
    requires p > 0
    decreases if p < n then n - p else 0
  {
    if p < n then IsPower(n, root, root.Times(p)) else p == n
  }

  /** Blocks in front of the descriptors of a meta group whose first group is `group`: the superblock or its
      copy, which all groups have, or only some. */
  function SuperCopies(sb: seq<Byte>, group: nat): (n: nat)
    requires IsSuperBlock(sb)
    ensures n <= 1 && (group == 0 ==> n == 1)
  {
    if !HasSparseSuper(sb) || group <= 1 || IsPower(group, Three, 1) || IsPower(group, Five, 1) ||
       IsPower(group, Seven, 1)
    then 1 else 0
  }

  function Power(b: nat, k: nat): nat {
    if k == 0 then 1 else b * Power(b, k - 1)
  }

  function Base(root: Root): nat {
    match root
    case Three => 3
    case Five => 5
    case Seven => 7
  }

  lemma {:induction false} IsPowerExact(n: nat, root: Root, j: nat, p: nat)
    requires p == Power(Base(root), j) && p > 0
    ensures IsPower(n, root, p) <==> exists k :: k >= j && n == Power(Base(root), k)
    decreases if p < n then n - p else 0
  {
    if p < n {
      assert root.Times(p) == Power(Base(root), j + 1);
      IsPowerExact(n, root, j + 1, root.Times(p));
    } else {
      forall k | k > j ensures Power(Base(root), k) > p {
        PowerGrows(Base(root), j, k);
      }
    }
  }

  lemma {:induction false} PowerGrows(b: nat, j: nat, k: nat)
    requires b > 1 && j < k
    ensures 0 < Power(b, j) < Power(b, k)
    decreases k
  {
    if k == j + 1 {
      PowerPositive(b, j);
    } else {
      PowerGrows(b, j, k - 1);
    }
  }

  lemma PowerPositive(b: nat, j: nat)
    requires b > 1
    ensures Power(b, j) > 0
  {
  }

  /** With SPARSE_SUPER copies are kept by group 0 and the powers of 3, 5 and 7, group 1 among them. */
  lemma SuperCopiesExact(sb: seq<Byte>, group: nat)
    requires IsSuperBlock(sb)
    ensures SuperCopies(sb, group) == 1 <==>
            || !HasSparseSuper(sb)
            || group == 0
            || exists k :: group == Power(3, k) || group == Power(5, k) || group == Power(7, k)
  {
    IsPowerExact(group, Three, 0, 1);
    IsPowerExact(group, Five, 0, 1);
    IsPowerExact(group, Seven, 0, 1);
    assert Power(3, 0) == 1;
  }

  function DescriptorsPerBlock(sb: seq<Byte>): nat
    requires IsSuperBlock(sb) && DescSize(sb) > 0
  {
    DescPerBlock(BlockSize(sb), DescSize(sb))
  }

  /** The nr-th block of descriptors lies in its own meta group. */
  predicate InOwnGroup(sb: seq<Byte>, nr: nat)
    requires IsSuperBlock(sb)
  {
    HasMetaBg(sb) && FirstMetaBg(sb) <= nr
  }

  /** The block the superblock lies in. */
  function SuperAt(sb: seq<Byte>): (n: nat)
    requires IsSuperBlock(sb)
    ensures n * BlockSize(sb) <= 1024 < (n + 1) * BlockSize(sb)
  {
    if BlockSize(sb) == 1024 then 1 else 0
  }

  /** First block of group 0; the superblock of blocks of 1024 bytes lies behind it even if that is block 0. */
  function GroupBase(sb: seq<Byte>): nat
    requires IsSuperBlock(sb)
  {
    FirstDataBlock(sb) + if BlockSize(sb) == 1024 && FirstDataBlock(sb) == 0 then 1 else 0
  }

  /** Where the format puts the nr-th block of descriptors: behind the superblock, or at the start of its own
      meta group. */
  function DescriptorBlock(sb: seq<Byte>, nr: nat): nat
    requires IsSuperBlock(sb) && DescSize(sb) > 0
  {
    var group := Times(nr, DescriptorsPerBlock(sb));
    if InOwnGroup(sb, nr) then
      SuperCopies(sb, group) + (if nr == 0 then GroupBase(sb) else FirstDataBlock(sb)) +
              Times(group, BlocksPerGroup(sb))
    else SuperAt(sb) + 1 + nr
  }

  /** Which block of descriptors holds descriptor g, and which descriptor of it that is. */
  function BlockOfDescriptor(sb: seq<Byte>, g: nat): nat
    requires IsSuperBlock(sb) && DescSize(sb) > 0 && DescriptorsPerBlock(sb) > 0
  {
    g / DescriptorsPerBlock(sb)
  }

  function SlotOfDescriptor(sb: seq<Byte>, g: nat): nat
    requires IsSuperBlock(sb) && DescSize(sb) > 0 && DescriptorsPerBlock(sb) > 0
  {
    g % DescriptorsPerBlock(sb)
  }

  /** Byte address of descriptor g: by the format, and as the code has it. */
  function Place(sb: seq<Byte>, g: nat): nat
    requires IsSuperBlock(sb) && DescSize(sb) > 0 && DescriptorsPerBlock(sb) > 0
  {
    Times(DescriptorBlock(sb, BlockOfDescriptor(sb, g)), BlockSize(sb)) +
            DescOffset(DescSize(sb), SlotOfDescriptor(sb, g))
  }

  function FoundPlace(sb: seq<Byte>, g: nat): nat
    requires IsSuperBlock(sb)
  {
    BlockSize(sb) + DescOffset(DescSize(sb), g)
  }

  /** The format's group descriptor g. */
  function FormatDescriptor(part: Partition, sb: seq<Byte>, g: nat): seq<Byte>
    requires IsSuperBlock(sb) && DescSize(sb) > 0 && DescriptorsPerBlock(sb) > 0
  {
    DiskBytes(part, Place(sb, g), DescSize(sb))
  }

  /** Descriptor g is in the one table that starts at block 1. */
  predicate InFirstTable(sb: seq<Byte>, g: nat)
    requires IsSuperBlock(sb) && DescSize(sb) > 0 && DescriptorsPerBlock(sb) > 0
  {
    var nr := BlockOfDescriptor(sb, g);
    && BlockSize(sb) > 1024
    && if InOwnGroup(sb, nr) then nr == 0 && FirstDataBlock(sb) == 0
       else nr == 0 || BlockSize(sb) % DescSize(sb) == 0
  }

  /** Group and index of inode n. */
  function GroupOf(sb: seq<Byte>, n: nat): nat
    requires IsSuperBlock(sb) && InodesPerGroup(sb) > 0 && n > 0
  {
    (n - 1) / InodesPerGroup(sb)
  }

  function IndexOf(sb: seq<Byte>, n: nat): nat
    requires IsSuperBlock(sb) && InodesPerGroup(sb) > 0 && n > 0
  {
    (n - 1) % InodesPerGroup(sb)
  }

  /** Inodes have 128 bytes on a file system of revision 0, whatever the field says. */
  function FormatInodeSize(sb: seq<Byte>): nat
    requires IsSuperBlock(sb)
  {
    if RevLevel(sb) == 0 then 128 else InodeSize(sb)
  }

  /** Inode n of the file system. */
  function FormatInode(part: Partition, sb: seq<Byte>, n: nat): seq<Byte>
    requires IsSuperBlock(sb) && InodesPerGroup(sb) > 0 && HoldsTableBlock(sb) && DescriptorsPerBlock(sb) > 0 && n > 0
  {
    var desc := FormatDescriptor(part, sb, GroupOf(sb, n));
    DiskBytes(part, Times(InodeTableBlock(desc, Has64Bit(sb)), BlockSize(sb)) +
            Times(IndexOf(sb, n), FormatInodeSize(sb)),
              FormatInodeSize(sb))
  }

  lemma ManyPerBlock(sb: seq<Byte>)
    requires WellFormedSuper(sb) && DescSize(sb) <= GROUP_DESC_BYTES
    ensures DescSize(sb) > 0 && DescriptorsPerBlock(sb) >= 16
  {
    hide BlocksPerGroup, Groups, Times, GdbCount, Has64Bit;
    assert BlockSize(sb) >= 1024;
    assert DescSize(sb) > 0;
    SixteenFit(BlockSize(sb), DescSize(sb));
  }

  lemma SixteenFit(bs: nat, descSize: nat)
    requires 0 < descSize <= 64 && bs >= 1024
    ensures DescPerBlock(bs, descSize) >= 16
  {
  }

  /** The code looks for descriptor g where the format puts it exactly when blocks have more than 1024 bytes
      and descriptor g is in the very first block of descriptors, at the start of the file system, or
      descriptors fill their blocks and META_BG has not moved this one to its own meta group. */
  lemma DescriptorPlaceExact(sb: seq<Byte>, g: nat)
    requires WellFormedSuper(sb) && DescSize(sb) <= GROUP_DESC_BYTES
    ensures DescSize(sb) > 0 && DescriptorsPerBlock(sb) > 0
    ensures FoundPlace(sb, g) == Place(sb, g) <==> InFirstTable(sb, g)
  {
    hide BlockSize, FirstDataBlock, DescSize, Groups, IsPower, GdbCount, HasMetaBg, FirstMetaBg, BlocksPerGroup;
    SuperFacts(sb);
    ManyPerBlock(sb);
    var per := DescriptorsPerBlock(sb);
    var nr, r := BlockOfDescriptor(sb, g), SlotOfDescriptor(sb, g);
    assert g == nr * per + r;
    DescriptorPlaces(BlockSize(sb), DescSize(sb), SuperAt(sb), if nr == 0 then GroupBase(sb) else FirstDataBlock(sb),
                     BlocksPerGroup(sb), nr, r, SuperCopies(sb, nr * per), InOwnGroup(sb, nr));
  }

  /** For such a group, looking an inode up in the mounted geometry yields the file system's inode exactly if
      the size field holds the size of its inodes. */
  lemma MountedInodeIsFormats(geo: Geometry, part: Partition, n: nat)
    requires MountedAs(geo, part) && n > 0 && geo.Group(n) < |geo.grDesc|
    ensures var sb := SuperBlock(part);
            && InodesPerGroup(sb) > 0 && HoldsTableBlock(sb) && DescSize(sb) > 0 && DescriptorsPerBlock(sb) > 0
            && (InFirstTable(sb, geo.Group(n)) ==>
                  (geo.DiskInode(n) == FormatInode(part, sb, n) <==> InodeSize(sb) == FormatInodeSize(sb)))
  {
    hide BlockSize, DescSize, DescOffset, Has64Bit, InodeSize, FormatInodeSize, InodesPerGroup, InodeTableBlock,
      SuperBlock, DiskBytes, FirstDataBlock, Groups, HoldsTableBlock, Times, Geometry.Shaped, Geometry.DiskInode,
      Geometry.Group, Place, InFirstTable, GdbCount;
    var sb := SuperBlock(part);
    ManyPerBlock(sb);
    HoldsIt(sb);
    DescriptorPlaceExact(sb, geo.Group(n));
    DiskInodeBytes(geo, n);
    SameGroup(geo, sb, n);
    assert geo.grDesc[geo.Group(n)] == DiskBytes(part, FoundPlace(sb, geo.Group(n)), DescSize(sb));
    assert |geo.DiskInode(n)| == InodeSize(sb) && |FormatInode(part, sb, n)| == FormatInodeSize(sb);
  }

  /** On revision 0 that is a matter of the unused size field: it must happen to hold 128. If it is 0, as usual,
      nothing at all is read for an inode table. */
  lemma OldRevision(geo: Geometry, part: Partition)
    requires MountedAs(geo, part) && RevLevel(SuperBlock(part)) == 0
    ensures InodeSize(SuperBlock(part)) == FormatInodeSize(SuperBlock(part)) <==> InodeSize(SuperBlock(part)) == 128
    ensures InodeSize(SuperBlock(part)) == 128 ==> geo.Valid()
    ensures InodeSize(SuperBlock(part)) == 0 ==> !geo.Valid() && geo.TableSectors() == 0
  {
  }

  lemma HoldsIt(sb: seq<Byte>)
    requires WellFormedSuper(sb)
    ensures HoldsTableBlock(sb) && InodesPerGroup(sb) > 0
  {
  }

  lemma SameGroup(geo: Geometry, sb: seq<Byte>, n: nat)
    requires IsSuperBlock(sb) && geo.Shaped() && geo.inodesPerGroup == InodesPerGroup(sb) && n > 0
    ensures geo.Group(n) == GroupOf(sb, n) && geo.IndexInGroup(n) == IndexOf(sb, n)
  {
  }

  /** The inode as a run of bytes of the partition. */
  lemma DiskInodeBytes(geo: Geometry, n: nat)
    requires geo.Shaped() && n > 0 && geo.Group(n) < |geo.grDesc|
    ensures geo.DiskInode(n) ==
            DiskBytes(geo.fs.part, Times(geo.TableBlock(geo.Group(n)), geo.fs.blockSize)
                                   + Times(geo.IndexInGroup(n), geo.inodeSize), geo.inodeSize)
  {
    hide ValidBlockSize, Geometry.TableBlock, Geometry.TableBytes, Geometry.Group, Geometry.IndexInGroup;
    var at := Times(geo.TableBlock(geo.Group(n)), geo.fs.blockSize) + Times(geo.IndexInGroup(n), geo.inodeSize);
    assert at == geo.TableBlock(geo.Group(n)) * geo.fs.blockSize + geo.InodeOffset(n);
    assert forall i :: 0 <= i < geo.inodeSize ==>
             geo.DiskInode(n)[i] == DiskBytes(geo.fs.part, at, geo.inodeSize)[i];
  }

  /** With blocks of 1024 bytes the superblock itself is taken for the table. */
  lemma SuperblockTakenForTable(geo: Geometry, part: Partition, g: nat)
    requires MountedAs(geo, part) && geo.fs.blockSize == 1024 && g < |geo.grDesc|
    requires DescOffset(DescSize(SuperBlock(part)), g) + DescSize(SuperBlock(part)) <= 1024
    ensures geo.grDesc[g] == Descriptor(SuperBlock(part), DescSize(SuperBlock(part)), g)
  {
    hide WellFormedSuper, DescSize, DescOffset;
  }

  /** A mounted file system with blocks of more than 1024 bytes has its magic number in block 0. */
  lemma MountedShowsMagic(geo: Geometry, part: Partition)
    requires MountedAs(geo, part) && geo.fs.blockSize > 1024
    ensures ShowsMagic(geo.fs)
  {
    hide WellFormedSuper, BlockSize, DescSize, DescOffset;
    assert geo.fs.Block(0)[MAGIC_OFFSET] == SuperBlock(part)[56] &&
            geo.fs.Block(0)[MAGIC_OFFSET + 1] == SuperBlock(part)[57];
  }

  /** The groups the format counts, with the high half of the block count. */
  function FormatGroups(sb: seq<Byte>): nat
    requires IsSuperBlock(sb) && BlocksPerGroup(sb) > 0
  {
    TrueGroupCount(BlocksCount(sb), FirstDataBlock(sb), BlocksPerGroup(sb))
  }

  /** A mounted file system has the format's number of groups exactly when it has a data block and at most
      2^32 of them. */
  lemma MountedGroups(geo: Geometry, part: Partition)
    requires MountedAs(geo, part)
    ensures var sb := SuperBlock(part);
            && BlocksPerGroup(sb) > 0
            && (|geo.grDesc| == FormatGroups(sb) <==>
                FirstDataBlock(sb) < BlocksCount(sb) && BlocksCount(sb) - FirstDataBlock(sb) <= TWO_32)
            && (FirstDataBlock(sb) < BlocksCount(sb) ==> |geo.grDesc| <= FormatGroups(sb))
  {
    hide BlockSize, DescSize, DescOffset, TrueGroupCount, GroupCount, GdbCount;
    var sb := SuperBlock(part);
    U32Shift(Le32(sb, 336), Le32(sb, 4));
    GroupCountExact(BlocksCount(sb), FirstDataBlock(sb), BlocksPerGroup(sb));
  }

  /** So every inode of the file system's groups has a descriptor exactly when there are at most 2^32 data
      blocks. The others, from the first inode behind the counted groups on, are looked up outside the
      descriptor table. */
  lemma EveryInodeCounted(geo: Geometry, part: Partition)
    requires MountedAs(geo, part) && FirstDataBlock(SuperBlock(part)) < BlocksCount(SuperBlock(part))
    ensures var sb := SuperBlock(part);
            && BlocksPerGroup(sb) > 0
            && ((forall n :: 0 < n <= Times(FormatGroups(sb), geo.inodesPerGroup) ==> geo.Group(n) < |geo.grDesc|) <==>
                BlocksCount(sb) - FirstDataBlock(sb) <= TWO_32)
  {
    hide BlockSize, DescSize, DescOffset, FormatGroups, WellFormedSuper, Groups, BlocksCount, FirstDataBlock,
      Geometry.Group, Times, SuperBlock;
    MountedGroups(geo, part);
    var per, counted, all := geo.inodesPerGroup, |geo.grDesc|, FormatGroups(SuperBlock(part));
    CountCovers(per, counted, all);
    forall n: nat | 0 < n
      ensures geo.Group(n) < counted <==> n <= counted * per
    {
      InodeInGroups(geo, n);
    }
    if counted < all {
      assert geo.Group(counted * per + 1) >= counted;
    }
  }

  /** On a file system with as many inodes as its groups hold, the destructor of the mounted state counts as many
      groups as there are slots for cached tables exactly under the same condition. */
  lemma DestructorCounts(geo: Geometry, part: Partition)
    requires MountedAs(geo, part) && FormatGroups(SuperBlock(part)) < TWO_31
    requires InodesCount(SuperBlock(part)) == Times(FormatGroups(SuperBlock(part)), geo.inodesPerGroup)
    ensures var sb := SuperBlock(part);
            DestructorGroups(InodesCount(sb), geo.inodesPerGroup) == |geo.grDesc| <==>
            FirstDataBlock(sb) < BlocksCount(sb) && BlocksCount(sb) - FirstDataBlock(sb) <= TWO_32
  {
    hide BlockSize, DescSize, DescOffset, FormatGroups, WellFormedSuper, Groups, BlocksCount, FirstDataBlock,
      InodesCount, SuperBlock;
    MountedGroups(geo, part);
    DivModUnique(InodesCount(SuperBlock(part)), geo.inodesPerGroup, FormatGroups(SuperBlock(part)), 0);
  }

  lemma CountCovers(per: nat, counted: nat, all: nat)
    requires per > 0
    ensures if all <= counted then Times(all, per) <= counted * per else counted * per + 1 <= Times(all, per)
  {
  }

  /** The inode numbers a mounted file system can look up are exactly those of its groups. */
  lemma InodeInGroups(geo: Geometry, n: nat)
    requires geo.Shaped() && n > 0
    ensures geo.Group(n) < |geo.grDesc| <==> n <= |geo.grDesc| * geo.inodesPerGroup
  {
    var per, g := geo.inodesPerGroup, geo.Group(n);
    assert n - 1 == g * per + (n - 1) % per;
    MulMono(per, g + 1, |geo.grDesc|);
    MulMono(per, |geo.grDesc|, g);
    assert (g + 1) * per == g * per + per;
  }
}
