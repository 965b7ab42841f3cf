/** A partition as an immutable byte device, the file-system blocks on it and the inode fields. */
module Volume {
  import opened Bytes

  /** `offset` is the byte offset of the partition on the disk. */
  datatype Partition = Partition(disk: nat -> Byte, offset: nat, sectorSize: nat)

  /** What `read_sectors_ex` returns when the device answers. */
  function ReadSectorsEx(p: Partition, start: nat, count: nat): (b: seq<Byte>)
    ensures |b| == count * p.sectorSize
    ensures forall i :: 0 <= i < |b| ==> b[i] == p.disk(p.offset + start * p.sectorSize + i)
  {
    seq(count * p.sectorSize, i requires 0 <= i => p.disk(p.offset + start * p.sectorSize + i))
  }

  /** 1024 << s_log_block_size, up to the largest block size of the format. */
  predicate ValidBlockSize(bs: nat) {
    bs == 1024 || bs == 2048 || bs == 4096 || bs == 8192 || bs == 16384 || bs == 32768 || bs == 65536
  }

  /** The mounted file system, as far as block addressing is concerned. */
  datatype Fs = Fs(part: Partition, blockSize: nat)
  {
    predicate Valid() {
      ValidBlockSize(blockSize) && part.sectorSize == 512
    }

    /** The bytes of file-system block `nr`. */
    function Block(nr: nat): (b: seq<Byte>)
      ensures |b| == blockSize
    {
      seq(blockSize, i requires 0 <= i => part.disk(part.offset + nr * blockSize + i))
    }

    /** 32-bit block numbers held by one block. */
    function AddrPerBlock(): nat {
      blockSize / 4
    }
  }

  /** Reading `blockSize >> 9` sectors from sector `(blockSize >> 9) * nr` yields block `nr`. */
  lemma SectorReadIsBlock(fs: Fs, nr: nat)
    requires fs.Valid()
    ensures ReadSectorsEx(fs.part, fs.blockSize / 512 * nr, fs.blockSize / 512) == fs.Block(nr)
  {
  }

  /** The block class shifts by 9 whatever the device's sector size is: the byte address it reads is
      that of block `nr` exactly when sectors have 512 bytes (block 0 is found in any case). */
  lemma ShiftByNineExact(bs: nat, sectorSize: nat, nr: nat)
    requires ValidBlockSize(bs)
    ensures bs / 512 * nr * sectorSize == nr * bs <==> sectorSize == 512 || nr == 0
  {
    var s := bs / 512;
    assert s * 512 == bs && s > 0;
    if nr > 0 {
      assert s * nr > 0;
      assert nr * bs == (s * nr) * 512 by {
        assert nr * (s * 512) == (s * nr) * 512;
      }
      MulMono(s * nr, sectorSize, 512);
      MulMono(s * nr, 512, sectorSize);
    }
  }

  // ----- inode fields -----

  predicate ValidInode(inode: seq<Byte>) {
    |inode| >= 128
  }

  function SizeLo(inode: seq<Byte>): nat
    requires ValidInode(inode)
  {
    Le32(inode, 4)
  }

  function SizeHigh(inode: seq<Byte>): nat
    requires ValidInode(inode)
  {
    Le32(inode, 108)
  }

  function Size(inode: seq<Byte>): nat
    requires ValidInode(inode)
  {
    SizeHigh(inode) * TWO_32 + SizeLo(inode)
  }

  /** EXT4_EXTENTS_FL, bit 19 of i_flags. */
  predicate UsesExtents(inode: seq<Byte>)
    requires ValidInode(inode)
  {
    Le32(inode, 32) / 0x8_0000 % 2 == 1
  }

  function IBlock(inode: seq<Byte>, k: nat): nat
    requires ValidInode(inode) && k < 15
  {
    Le32(inode, 40 + 4 * k)
  }

  /** i_block seen as bytes; an extent inode keeps the root node of its tree there. */
  function IBlockBytes(inode: seq<Byte>): (b: seq<Byte>)
    requires ValidInode(inode)
    ensures |b| == 60
  {
    inode[40..100]
  }

  /** Number of blocks of the file. */
  function FileBlockCount(fs: Fs, inode: seq<Byte>): nat
    requires fs.Valid() && ValidInode(inode)
  {
    CeilDiv(Size(inode), fs.blockSize)
  }
}
