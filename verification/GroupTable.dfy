/** Superblock fields and the group descriptor table read at mount time. */
module GroupTable {
  import opened Bytes
  import opened Volume

  const FEATURE_INCOMPAT_64BIT := 0x80
  const FEATURE_INCOMPAT_META_BG := 0x10
  const MIN_DESC_SIZE := 32
  const SUPER_MAGIC := 0xEF53

  /** The 1024 superblock bytes. */
  predicate IsSuperBlock(sb: seq<Byte>) {
    |sb| >= 1024
  }

  function BlocksCountLo(sb: seq<Byte>): nat
    requires IsSuperBlock(sb)
  {
    Le32(sb, 4)
  }

  /** The format's block count, with its high half. */
  function BlocksCount(sb: seq<Byte>): nat
    requires IsSuperBlock(sb)
  {
    Le32(sb, 336) * TWO_32 + Le32(sb, 4)
  }

  function InodesCount(sb: seq<Byte>): nat
    requires IsSuperBlock(sb)
  {
    Le32(sb, 0)
  }

  function FirstDataBlock(sb: seq<Byte>): nat
    requires IsSuperBlock(sb)
  {
    Le32(sb, 20)
  }

  function LogBlockSize(sb: seq<Byte>): nat
    requires IsSuperBlock(sb)
  {
    Le32(sb, 24)
  }

  function BlocksPerGroup(sb: seq<Byte>): nat
    requires IsSuperBlock(sb)
  {
    Le32(sb, 32)
  }

  function InodesPerGroup(sb: seq<Byte>): nat
    requires IsSuperBlock(sb)
  {
    Le32(sb, 40)
  }

  function SuperMagic(sb: seq<Byte>): nat
    requires IsSuperBlock(sb)
  {
    Le16(sb, 56)
  }

  function RevLevel(sb: seq<Byte>): nat
    requires IsSuperBlock(sb)
  {
    Le32(sb, 76)
  }

  function InodeSize(sb: seq<Byte>): nat
    requires IsSuperBlock(sb)
  {
    Le16(sb, 88)
  }

  predicate Has64Bit(sb: seq<Byte>)
    requires IsSuperBlock(sb)
  {
    Le32(sb, 96) / FEATURE_INCOMPAT_64BIT % 2 == 1
  }

  predicate HasMetaBg(sb: seq<Byte>)
    requires IsSuperBlock(sb)
  {
    Le32(sb, 96) / FEATURE_INCOMPAT_META_BG % 2 == 1
  }

  function FirstMetaBg(sb: seq<Byte>): nat
    requires IsSuperBlock(sb)
  {
    Le32(sb, 260)
  }

  predicate HasSparseSuper(sb: seq<Byte>)
    requires IsSuperBlock(sb)
  {
    Le32(sb, 100) % 2 == 1
  }

  function DescSize(sb: seq<Byte>): nat
    requires IsSuperBlock(sb)
  {
    if Has64Bit(sb) then Le16(sb, 254) else MIN_DESC_SIZE
  }

  // ----- initialize_from_sb -----

  /** s_group_block_count, in 32-bit unsigned arithmetic. */
  function GroupCount(blocks: nat, first: nat, perGroup: nat): nat
    requires perGroup > 0
  {
    U32(blocks - first - 1) / perGroup + 1
  }

  lemma GroupCountPositive(blocks: nat, first: nat, perGroup: nat)
    requires perGroup > 0
    ensures GroupCount(blocks, first, perGroup) > 0
  {
  }

  /** The groups the format counts. */
  function TrueGroupCount(blocks: nat, first: nat, perGroup: nat): nat
    requires perGroup > 0
  {
    CeilDiv(if first <= blocks then blocks - first else 0, perGroup)
  }

  /** The code starts from the low half of the block count. It counts the format's groups exactly when there
      is a data block at all and there are at most 2^32 of them, and never more of them otherwise. */
  lemma GroupCountExact(blocks: nat, first: nat, perGroup: nat)
    requires 0 < perGroup < TWO_32 && first < TWO_32
    ensures GroupCount(U32(blocks), first, perGroup) == TrueGroupCount(blocks, first, perGroup) <==>
            first < blocks && blocks - first <= TWO_32
    ensures first < blocks ==> GroupCount(U32(blocks), first, perGroup) <= TrueGroupCount(blocks, first, perGroup)
  {
    hide CeilDiv, U32;
    if first < blocks {
      var m := blocks - first - 1;
      OneMoreThanFloor(m + 1, perGroup);
      LowHalfOfSum(blocks, first);
      LowQuotient(m, perGroup);
    } else {
      CeilDivBounds(0, perGroup);
    }
  }

  lemma LowHalfOfSum(blocks: nat, first: nat)
    requires first < blocks
    ensures U32(U32(blocks) - first - 1) == U32(blocks - first - 1)
  {
  }

  lemma {:induction false} LowHalf(x: int, q: nat)
    ensures U32(x + q * TWO_32) == U32(x)
  {
  }

  /** Cutting the dividend to 32 bits changes the quotient by any smaller number, if it cuts at all. */
  lemma LowQuotient(m: nat, b: nat)
    requires 0 < b < TWO_32
    ensures U32(m) / b <= m / b
    ensures U32(m) / b == m / b <==> m < TWO_32
  {
    if m >= TWO_32 {
      QuotientGrows(U32(m), m, b);
    }
  }

  lemma QuotientGrows(r: nat, m: nat, b: nat)
    requires b > 0 && r + b <= m
    ensures r / b < m / b
  {
  }

  lemma OneMoreThanFloor(n: nat, b: nat)
    requires n > 0 && b > 0
    ensures (n - 1) / b + 1 == CeilDiv(n, b)
  {
    var q, r := (n - 1) / b, (n - 1) % b;
    assert n - 1 + b == (q + 1) * b + r;
    DivModUnique(n - 1 + b, b, q + 1, r);
  }

  /** s_desc_per_block and s_gdb_count. */
  function DescPerBlock(bs: nat, descSize: nat): nat
    requires descSize > 0
  {
    bs / descSize
  }

  function GdbCount(groups: nat, bs: nat, descSize: nat): nat
    requires 0 < descSize <= bs
  {
    DivLess(0, descSize, 1);
    DescPerBlockPositive(bs, descSize);
    U32(groups + DescPerBlock(bs, descSize) - 1) / DescPerBlock(bs, descSize)
  }

  lemma DescPerBlockPositive(bs: nat, descSize: nat)
    requires 0 < descSize <= bs
    ensures DescPerBlock(bs, descSize) > 0 && DescPerBlock(bs, descSize) * descSize <= bs
  {
  }

  lemma ScaledBound(groups: nat, gdb: nat, per: nat, descSize: nat, bs: nat)
    requires groups <= gdb * per && per * descSize <= bs
    ensures groups * descSize <= gdb * bs
  {
  }

  /** The gdb blocks hold all group descriptors, whatever the descriptor size up to one block, and none of them
      is needless. */
  lemma TableFitsInGdbBlocks(groups: nat, bs: nat, descSize: nat)
    requires 0 < descSize <= bs && groups + bs < TWO_32
    ensures DescOffset(descSize, groups) <= GdbCount(groups, bs, descSize) * bs
    ensures DescPerBlock(bs, descSize) * (GdbCount(groups, bs, descSize) - 1) < groups || groups == 0
  {
    var per := DescPerBlock(bs, descSize);
    DescPerBlockPositive(bs, descSize);
    MulMono(per, 1, descSize);
    CeilDivBounds(groups, per);
    ScaledBound(groups, GdbCount(groups, bs, descSize), per, descSize, bs);
  }

  /** The code reads descriptors from block 1 on. That is the block after the superblock's exactly when the
      superblock lies in block 0. */
  lemma TableLocationExact(bs: nat, superAt: nat, sectorSize: nat)
    requires sectorSize > 0 && bs > 0 && bs % sectorSize == 0
    ensures bs / sectorSize * sectorSize == (superAt + 1) * bs <==> superAt == 0
  {
  }

  /** Descriptor r of the nr-th block of descriptors. The code looks for it in one run of descriptors from
      block 1 on; the format puts it behind the superblock's block `superAt`, or, if the meta group has a
      place of its own, behind the superblock copies at the start `base` of group 0 plus the groups before.
      The two places are the same exactly for the very first block of descriptors of a file system that has
      nothing in front, or if descriptors fill their blocks and stay behind a superblock in block 0. */
  lemma DescriptorPlaces(bs: nat, descSize: nat, superAt: nat, base: nat, perGroup: nat, nr: nat, r: nat,
                         copies: nat, own: bool)
    requires 0 < descSize && DescPerBlock(bs, descSize) >= 16 && perGroup > 0 && (nr == 0 ==> copies == 1)
    ensures var per := DescPerBlock(bs, descSize);
            var at := if own then copies + base + nr * per * perGroup else superAt + 1 + nr;
            bs + (nr * per + r) * descSize == at * bs + r * descSize <==>
            if own then base == 0 && nr == 0 else superAt == 0 && (nr == 0 || bs % descSize == 0)
  {
    var per := DescPerBlock(bs, descSize);
    assert bs == per * descSize + bs % descSize;
    MulMono(descSize, 16, per);
    if !own || nr == 0 {
      PlacesInLine(bs, per, descSize, bs % descSize, if own then base else superAt, nr, r);
    } else {
      OwnPlaceIsBeyond(bs, per, descSize, perGroup, nr, r, copies + base + nr * per * perGroup);
    }
  }

  lemma InLine(nr: nat, per: nat, r: nat, descSize: nat, bs: nat, waste: nat)
    requires bs == per * descSize + waste
    ensures (nr * per + r) * descSize == nr * bs - nr * waste + r * descSize
  {
  }

  lemma PlacesInLine(bs: nat, per: nat, descSize: nat, waste: nat, first: nat, nr: nat, r: nat)
    requires bs == per * descSize + waste && bs > 0
    ensures bs + (nr * per + r) * descSize == (first + 1 + nr) * bs + r * descSize <==>
            first == 0 && (nr == 0 || waste == 0)
  {
  }

  lemma OwnPlaceIsBeyond(bs: nat, per: nat, descSize: nat, perGroup: nat, nr: nat, r: nat, at: nat)
    requires bs > 0 && per * descSize <= bs && per >= 16 && perGroup > 0 && nr > 0 && at >= nr * per * perGroup
    ensures bs + (nr * per + r) * descSize < at * bs + r * descSize
  {
    InLine(nr, per, r, descSize, bs, bs - per * descSize);
    MulMono(nr * per, 1, perGroup);
    MulMono(nr, 16, per);
    MulMono(bs, nr + 2, at);
    assert (nr + 2) * bs == nr * bs + 2 * bs;
    MulMono(nr, 0, bs - per * descSize);
  }

  /** Byte offset of descriptor i. */
  function DescOffset(descSize: nat, i: nat): nat {
    i * descSize
  }

  lemma DescOffsets(descSize: nat, i: nat, groups: nat)
    ensures DescOffset(descSize, 0) == 0
    ensures DescOffset(descSize, i + 1) == DescOffset(descSize, i) + descSize
    ensures i < groups ==> DescOffset(descSize, i) + descSize <= DescOffset(descSize, groups)
  {
  }

  /** Descriptor i of a table that starts at the beginning of `buffer`. */
  function Descriptor(buffer: seq<Byte>, descSize: nat, i: nat): seq<Byte>
    requires DescOffset(descSize, i) + descSize <= |buffer|
  {
    buffer[DescOffset(descSize, i)..DescOffset(descSize, i) + descSize]
  }

  /** Size of the structure a descriptor is copied to. */
  const GROUP_DESC_BYTES := 64

  /** Descriptor i as it was stored. */
  function Stored(grDesc: seq<Byte>, descSize: nat, i: nat): seq<Byte>
    requires GROUP_DESC_BYTES * i + descSize <= |grDesc|
  {
    grDesc[GROUP_DESC_BYTES * i..GROUP_DESC_BYTES * i + descSize]
  }

  /** Copying descriptor i to its place leaves the earlier ones alone. */
  lemma StoreOne(before: seq<Byte>, after: seq<Byte>, buffer: seq<Byte>, descSize: nat, i: nat)
    requires DescOffset(descSize, i) + descSize <= |buffer| && |before| == |after|
    requires GROUP_DESC_BYTES * i + descSize <= |after|
    requires var at := GROUP_DESC_BYTES * i;
             forall y :: at <= y < at + descSize ==> after[y] == buffer[DescOffset(descSize, i) + (y - at)]
    requires forall y :: 0 <= y < GROUP_DESC_BYTES * i ==> after[y] == before[y]
    ensures Stored(after, descSize, i) == Descriptor(buffer, descSize, i)
    ensures descSize <= GROUP_DESC_BYTES ==> forall j :: 0 <= j < i ==>
              GROUP_DESC_BYTES * j + descSize <= |after| && Stored(after, descSize, j) == Stored(before, descSize, j)
  {
  }

  /** The copy loop of `fill_group_descriptor_table`, into an array of fixed-size structures. No read leaves
      the buffer; some copy would run past the end of the array exactly if descriptors are longer than the
      structure. Otherwise every descriptor is stored. */
  method FillGroupDescriptorTable(buffer: seq<Byte>, groups: nat, descSize: nat)
    returns (grDesc: array<Byte>, overrun: bool)
    requires DescOffset(descSize, groups) <= |buffer|
    ensures fresh(grDesc) && grDesc.Length == GROUP_DESC_BYTES * groups
    ensures overrun <==> groups > 0 && descSize > GROUP_DESC_BYTES
    ensures !overrun ==> forall i :: 0 <= i < groups ==>
              && DescOffset(descSize, i) + descSize <= |buffer|
              && GROUP_DESC_BYTES * i + descSize <= grDesc.Length
              && Stored(grDesc[..], descSize, i) == Descriptor(buffer, descSize, i)
  {
    hide DescOffset, Stored, Descriptor;
    grDesc, overrun := new Byte[GROUP_DESC_BYTES * groups](_ => 0), false;
    var offset := 0;
    DescOffsets(descSize, 0, groups);
    for i := 0 to groups
      invariant offset == DescOffset(descSize, i) && fresh(grDesc) && grDesc.Length == GROUP_DESC_BYTES * groups
      invariant i > 0 ==> GROUP_DESC_BYTES * (i - 1) + descSize <= grDesc.Length
      invariant descSize <= GROUP_DESC_BYTES ==> forall j :: 0 <= j < i ==>
                  && DescOffset(descSize, j) + descSize <= |buffer|
                  && Stored(grDesc[..], descSize, j) == Descriptor(buffer, descSize, j)
    {
      DescOffsets(descSize, i, groups);
      if GROUP_DESC_BYTES * i + descSize > grDesc.Length {
        return grDesc, true;
      }
      ghost var before := grDesc[..];
      var at := GROUP_DESC_BYTES * i;
      forall y | at <= y < at + descSize {
        grDesc[y] := buffer[offset + (y - at)];
      }
      StoreOne(before, grDesc[..], buffer, descSize, i);
      offset := offset + descSize;
    }
  }

  /** `get_ext2_gr_descriptors`: reads gdb_count blocks starting at block 1 and stores the descriptors in
      them; null exactly when the device does not answer or the copies would run past their array. */
  method ReadGroupDescriptors(part: Partition, bs: nat, groups: nat, descSize: nat, readable: bool)
    returns (grDesc: array?<Byte>, overrun: bool)
    requires part.sectorSize > 0 && bs % part.sectorSize == 0 && 0 < descSize <= bs && groups + bs < TWO_32
    requires GdbCount(groups, bs, descSize) * bs < TWO_31
    ensures overrun <==> readable && groups > 0 && descSize > GROUP_DESC_BYTES
    ensures grDesc != null <==> readable && !overrun
    ensures grDesc != null ==> fresh(grDesc) && grDesc.Length == GROUP_DESC_BYTES * groups
    ensures grDesc != null ==> forall i :: 0 <= i < groups ==>
              && GROUP_DESC_BYTES * i + descSize <= grDesc.Length
              && Stored(grDesc[..], descSize, i) == DiskBytes(part, bs + DescOffset(descSize, i), descSize)
  {
    hide Stored, GdbCount, DescOffset;
    if !readable {
      return null, false;
    }
    var blockSizeSect := bs / part.sectorSize;
    var buffer := ReadSectorsEx(part, blockSizeSect, GdbCount(groups, bs, descSize) * blockSizeSect);
    SectorsOfBlocks(bs, part.sectorSize, GdbCount(groups, bs, descSize));
    TableFitsInGdbBlocks(groups, bs, descSize);
    grDesc, overrun := FillGroupDescriptorTable(buffer, groups, descSize);
    if overrun {
      return null, true;
    }
    forall i | 0 <= i < groups
      ensures Stored(grDesc[..], descSize, i) == DiskBytes(part, bs + DescOffset(descSize, i), descSize)
    {
      DescOffsets(descSize, i, groups);
      assert Stored(grDesc[..], descSize, i) == Descriptor(buffer, descSize, i);
    }
  }

  /** `len` bytes of the partition from byte `at` on. */
  function DiskBytes(part: Partition, at: nat, len: nat): (b: seq<Byte>)
    ensures |b| == len && forall x :: 0 <= x < len ==> b[x] == part.disk(part.offset + at + x)
  {
    seq(len, x requires 0 <= x => part.disk(part.offset + at + x))
  }

  lemma SectorsOfBlocks(bs: nat, sectorSize: nat, n: nat)
    requires sectorSize > 0 && bs % sectorSize == 0
    ensures bs / sectorSize * sectorSize == bs
    ensures n * (bs / sectorSize) * sectorSize == n * bs
  {
  }

  /** bg_inode_table, with its high half only on 64-bit file systems. */
  function InodeTableBlock(desc: seq<Byte>, is64: bool): nat
    requires |desc| >= 32 && (is64 ==> |desc| >= 44)
  {
    (if is64 then Le32(desc, 40) * TWO_32 else 0) + Le32(desc, 8)
  }
}
