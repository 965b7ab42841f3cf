/** The bytes the format gives a file, holes included, and when the reader, which knows no holes, finds
    the same ones. */
module Holes {
  import opened Bytes
  import opened Volume
  import opened IndirectMap
  import opened ExtentTree
  import opened BlockMap
  import opened FileContents

  /** Bytes 1080 and 1081 of a file system: the magic number in its superblock. */
  const MAGIC_OFFSET := 1080

  predicate Blank(b: seq<Byte>) {
    forall i :: 0 <= i < |b| ==> b[i] == 0
  }

  /** Logical block k by the format: the mapped block, or zeros in a hole. */
  ghost function FormatBlock(fs: Fs, inode: seq<Byte>, k: nat): (b: seq<Byte>)
    requires fs.Valid() && ValidInode(inode)
    ensures |b| == fs.blockSize
  {
    if Mapped(fs, inode, k) then fs.Block(Map(fs, inode, k)) else seq(fs.blockSize, _ => 0)
  }

  ghost function FormatBlocksUpTo(fs: Fs, inode: seq<Byte>, n: nat): (b: seq<Byte>)
    requires fs.Valid() && ValidInode(inode)
    ensures |b| == n * fs.blockSize
  {
    if n == 0 then []
    else
      assert n * fs.blockSize == (n - 1) * fs.blockSize + fs.blockSize;
      FormatBlocksUpTo(fs, inode, n - 1) + FormatBlock(fs, inode, n - 1)
  }

  /** The file. */
  ghost function Contents(fs: Fs, inode: seq<Byte>): (c: seq<Byte>)
    requires fs.Valid() && ValidInode(inode) && Described(fs, inode)
    ensures |c| == Size(inode)
  {
    CeilDivBounds(Size(inode), fs.blockSize);
    FormatBlocksUpTo(fs, inode, FileBlockCount(fs, inode))[..Size(inode)]
  }

  lemma {:induction false} FormatBlockAt(fs: Fs, inode: seq<Byte>, n: nat, k: nat, r: nat)
    requires fs.Valid() && ValidInode(inode) && k < n && r < fs.blockSize
    ensures k * fs.blockSize + r < n * fs.blockSize
    ensures FormatBlocksUpTo(fs, inode, n)[k * fs.blockSize + r] == FormatBlock(fs, inode, k)[r]
  {
    hide FormatBlock;
    MulMono(fs.blockSize, k + 1, n);
    assert (k + 1) * fs.blockSize == k * fs.blockSize + fs.blockSize;
    assert n * fs.blockSize == (n - 1) * fs.blockSize + fs.blockSize;
    if k < n - 1 {
      FormatBlockAt(fs, inode, n - 1, k, r);
    }
  }

  /** Byte r of block k of the file: the byte at its place in the block mapped there, or 0 in a hole. */
  lemma ContentsByte(fs: Fs, inode: seq<Byte>, k: nat, r: nat)
    requires fs.Valid() && ValidInode(inode) && Described(fs, inode)
    requires r < fs.blockSize && k * fs.blockSize + r < Size(inode)
    ensures Contents(fs, inode)[k * fs.blockSize + r] ==
            if Mapped(fs, inode, k) then fs.part.disk(fs.part.offset + Map(fs, inode, k) * fs.blockSize + r) else 0
  {
    hide FormatBlocksUpTo, Mapped, Map, Described, Size;
    var n := FileBlockCount(fs, inode);
    CeilDivBounds(Size(inode), fs.blockSize);
    if n <= k {
      MulMono(fs.blockSize, n, k);
    }
    FormatBlockAt(fs, inode, n, k, r);
  }

  /** Every block is read as the format has it. */
  ghost predicate ReadsRight(fs: Fs, inode: seq<Byte>, lost: set<nat>)
    requires fs.Valid() && ValidInode(inode) && Readable(fs, inode, lost)
  {
    ReadableAnswers(fs, inode, lost);
    forall k :: 0 <= k < FileBlockCount(fs, inode) ==> BlockReadsRight(fs, inode, lost, k)
  }

  /** A mapped block is read from its place, or from one with the same bytes; in place of a hole zeros
      happen to be found. */
  ghost predicate BlockReadsRight(fs: Fs, inode: seq<Byte>, lost: set<nat>, k: nat)
    requires fs.Valid() && ValidInode(inode) && Answered(fs, inode, lost, k) && k < FileBlockCount(fs, inode)
  {
    SameAsFormat(fs, inode, lost, k, ChunkLength(fs, inode, k))
  }

  ghost predicate SameAsFormat(fs: Fs, inode: seq<Byte>, lost: set<nat>, k: nat, len: nat)
    requires fs.Valid() && ValidInode(inode) && Answered(fs, inode, lost, k) && len <= fs.blockSize
  {
    var read := fs.Block(Target(fs, inode, lost, k))[..len];
    if Mapped(fs, inode, k) then Target(fs, inode, lost, k) == Map(fs, inode, k) || read ==
            fs.Block(Map(fs, inode, k))[..len]
    else Blank(read)
  }

  /** In place of every hole zeros happen to be found, as far as the file goes. */
  ghost predicate HolesReadBlank(fs: Fs, inode: seq<Byte>, lost: set<nat>)
    requires fs.Valid() && ValidInode(inode) && Readable(fs, inode, lost)
  {
    ReadableAnswers(fs, inode, lost);
    forall k :: 0 <= k < FileBlockCount(fs, inode) ==> Mapped(fs, inode, k) || ReadsBlank(fs, inode, lost, k)
  }

  predicate ReadsBlank(fs: Fs, inode: seq<Byte>, lost: set<nat>, k: nat)
    requires fs.Valid() && ValidInode(inode) && Answered(fs, inode, lost, k) && k < FileBlockCount(fs, inode)
  {
    Blank(fs.Block(Target(fs, inode, lost, k))[..ChunkLength(fs, inode, k)])
  }

  /** If the file is addressed right, holes are all that can go wrong. */
  lemma RightButForHoles(fs: Fs, inode: seq<Byte>, lost: set<nat>)
    requires fs.Valid() && ValidInode(inode) && Readable(fs, inode, lost) && AddressedRight(fs, inode, lost)
    ensures ReadsRight(fs, inode, lost) <==> HolesReadBlank(fs, inode, lost)
    ensures WellMapped(fs, inode) ==> ReadsRight(fs, inode, lost)
  {
    hide Mapped, Map, Answered, Target, Fs.Block, AddressedRight, Described, FileBlockCount, ChunkLength;
    ReadableAnswers(fs, inode, lost);
    forall k | 0 <= k < FileBlockCount(fs, inode)
      ensures BlockReadsRight(fs, inode, lost, k) <==> Mapped(fs, inode, k) || ReadsBlank(fs, inode, lost, k)
    {
      if Mapped(fs, inode, k) {
        TargetIsMap(fs, inode, lost, k);
      }
    }
  }

  /** One block, cut to len bytes. */
  lemma BlockExact(fs: Fs, inode: seq<Byte>, lost: set<nat>, k: nat, len: nat)
    requires fs.Valid() && ValidInode(inode) && Answered(fs, inode, lost, k) && len <= fs.blockSize
    ensures fs.Block(Target(fs, inode, lost, k))[..len] == FormatBlock(fs, inode, k)[..len] <==>
            SameAsFormat(fs, inode, lost, k, len)
  {
  }

  lemma ConcatExact(a: seq<Byte>, b: seq<Byte>, a': seq<Byte>, b': seq<Byte>)
    requires |a| == |a'|
    ensures a + b == a' + b' <==> a == a' && b == b'
  {
    assert a == (a + b)[..|a|] && b == (a + b)[|a|..];
    assert a' == (a' + b')[..|a'|] && b' == (a' + b')[|a'|..];
  }

  lemma {:induction false} WholeBlocksExact(fs: Fs, inode: seq<Byte>, lost: set<nat>, n: nat)
    requires fs.Valid() && ValidInode(inode) && Readable(fs, inode, lost) && n < FileBlockCount(fs, inode)
    ensures forall k :: 0 <= k < FileBlockCount(fs, inode) ==> Answered(fs, inode, lost, k)
    ensures BlocksUpTo(fs, inode, lost, n) == FormatBlocksUpTo(fs, inode, n) <==>
            forall k :: 0 <= k < n ==> BlockReadsRight(fs, inode, lost, k)
  {
    hide Mapped, Answered, Target, Readable, FormatBlock, BlockReadsRight, FileBlockCount;
    ReadableAnswers(fs, inode, lost);
    if n > 0 {
      WholeBlocksExact(fs, inode, lost, n - 1);
      WholeBlockExact(fs, inode, lost, n - 1);
      BlocksUpToLength(fs, inode, lost, n - 1);
      ConcatExact(BlocksUpTo(fs, inode, lost, n - 1), fs.Block(Target(fs, inode, lost, n - 1)),
                  FormatBlocksUpTo(fs, inode, n - 1), FormatBlock(fs, inode, n - 1));
    }
  }

  lemma WholeBlockExact(fs: Fs, inode: seq<Byte>, lost: set<nat>, k: nat)
    requires fs.Valid() && ValidInode(inode) && Answered(fs, inode, lost, k) && k + 1 < FileBlockCount(fs, inode)
    ensures fs.Block(Target(fs, inode, lost, k)) == FormatBlock(fs, inode, k) <==> BlockReadsRight(fs, inode, lost, k)
  {
    hide Answered, Target, FormatBlock, Fs.Block, FileBlockCount, SameAsFormat;
    BlockExact(fs, inode, lost, k, fs.blockSize);
    var read, meant := fs.Block(Target(fs, inode, lost, k)), FormatBlock(fs, inode, k);
    assert read[..fs.blockSize] == read && meant[..fs.blockSize] == meant;
  }

  /** The format's contents, split like the reader's. */
  lemma FormatByBlocks(fs: Fs, inode: seq<Byte>)
    requires fs.Valid() && ValidInode(inode) && Described(fs, inode) && Size(inode) > 0
    ensures var n, tail := FileBlockCount(fs, inode), TailLength(Size(inode), fs.blockSize);
            n > 0 && tail <= fs.blockSize &&
            Contents(fs, inode) == FormatBlocksUpTo(fs, inode, n - 1) + FormatBlock(fs, inode, n - 1)[..tail]
  {
    hide FormatBlock, Described, Size;
    CeilDivBounds(Size(inode), fs.blockSize);
    TailLengthBounds(Size(inode), fs.blockSize);
  }

  /** What the reader takes for the file is the file exactly when every block is read right; if the file is
      addressed right that means when every hole happens to read as zeros, and always without holes. */
  lemma CopyExact(fs: Fs, inode: seq<Byte>, lost: set<nat>)
    requires fs.Valid() && ValidInode(inode) && Readable(fs, inode, lost) && Described(fs, inode)
    ensures ReadContents(fs, inode, lost) == Contents(fs, inode) <==> ReadsRight(fs, inode, lost)
    ensures AddressedRight(fs, inode, lost) ==>
            (ReadContents(fs, inode, lost) == Contents(fs, inode) <==> HolesReadBlank(fs, inode, lost))
    ensures AddressedRight(fs, inode, lost) && WellMapped(fs, inode) ==>
            ReadContents(fs, inode, lost) == Contents(fs, inode)
  {
    hide WellMapped, HolesReadBlank, AddressedRight, SameAsFormat, Mapped, Answered, Target, Readable, Described,
      FormatBlock, Size, BlocksUpTo, FormatBlocksUpTo, ReadContents, Contents, TailLength;
    ReadableAnswers(fs, inode, lost);
    CeilDivBounds(Size(inode), fs.blockSize);
    if AddressedRight(fs, inode, lost) {
      RightButForHoles(fs, inode, lost);
    }
    if Size(inode) > 0 {
      var n, tail := FileBlockCount(fs, inode), TailLength(Size(inode), fs.blockSize);
      ContentsByBlocks(fs, inode, lost);
      FormatByBlocks(fs, inode);
      WholeBlocksExact(fs, inode, lost, n - 1);
      BlockExact(fs, inode, lost, n - 1, tail);
      assert BlockReadsRight(fs, inode, lost, n - 1) <==> SameAsFormat(fs, inode, lost, n - 1, tail);
      assert ReadsRight(fs, inode, lost) <==>
             (forall k :: 0 <= k < n - 1 ==> BlockReadsRight(fs, inode, lost, k)) &&
                     BlockReadsRight(fs, inode, lost, n - 1);
      BlocksUpToLength(fs, inode, lost, n - 1);
      ConcatExact(BlocksUpTo(fs, inode, lost, n - 1), fs.Block(Target(fs, inode, lost, n - 1))[..tail],
                  FormatBlocksUpTo(fs, inode, n - 1), FormatBlock(fs, inode, n - 1)[..tail]);
    }
  }

  // ----- what a failed read of the double-indirect block does -----

  /** A pointer file without holes whose rounded-up size fits in 32 bits, and in which the first block behind the
      double-indirect block, if there is one, does not happen to equal the block before it. */
  ghost predicate PlainPointerFile(fs: Fs, inode: seq<Byte>)
    requires fs.Valid() && ValidInode(inode)
  {
    var first := IND_BLOCK + fs.AddrPerBlock();
    && !UsesExtents(inode) && WellMapped(fs, inode)
    && FileBlockCount(fs, inode) < Capacity(fs) && Size(inode) + fs.blockSize - 1 < TWO_32
    && (first < FileBlockCount(fs, inode) ==>
          fs.Block(Chase(fs, inode, first - 1))[..ChunkLength(fs, inode, first)] !=
          fs.Block(Chase(fs, inode, first))[..ChunkLength(fs, inode, first)])
  }

  /** What is read is such a file exactly if the very first read of the double-indirect block succeeds, or none is
      needed. */
  lemma LostReadSpoils(fs: Fs, inode: seq<Byte>, lost: set<nat>)
    requires fs.Valid() && ValidInode(inode) && PlainPointerFile(fs, inode)
    ensures Readable(fs, inode, lost)
    ensures ReadContents(fs, inode, lost) == Contents(fs, inode) <==>
            FileBlockCount(fs, inode) <= IND_BLOCK + fs.AddrPerBlock() || IND_BLOCK + fs.AddrPerBlock() !in lost
  {
    hide Chase, Capacity, ReadContents, Contents, Fs.Block, FileBlockCount, ChunkLength, AllRight, CursorBlockCount,
            Trunk,
      Readable, AddressedRight, Served, Answer;
    var n, first := FileBlockCount(fs, inode), IND_BLOCK + fs.AddrPerBlock();
    CursorBlockCountExact(fs, inode);
    PointersAddressedExact(fs, inode, lost);
    CopyExact(fs, inode, lost);
    if n <= first || first !in lost {
      LoadedOnce(fs, inode, lost, n);
    } else {
      ReadableAnswers(fs, inode, lost);
      LaggingAnswer(fs, inode, lost, n, first);
      assert Lag(fs, lost, first) == 1;
      assert Mapped(fs, inode, first);
      assert Target(fs, inode, lost, first) == Chase(fs, inode, first - 1);
      assert !BlockReadsRight(fs, inode, lost, first);
    }
  }

  // ----- what zero pointers do -----

  /** With a blank block 0 every chain of pointers that meets a zero ends in block 0. */
  lemma ZeroChain(fs: Fs, inode: seq<Byte>, k: nat)
    requires fs.Valid() && ValidInode(inode) && !UsesExtents(inode) && k < Capacity(fs)
    requires Blank(fs.Block(0)) && !Mapped(fs, inode, k)
    ensures Chase(fs, inode, k) == 0
  {
    hide Fs.Block, InnerBase;
    assert forall i :: 0 <= i < fs.AddrPerBlock() ==> Ptr(fs, 0, i) == 0;
    if k >= IND_BLOCK + fs.AddrPerBlock() {
      Coordinates(fs, k);
    }
  }

  /** So with a blank block 0 every file of the pointer layout that is addressed right is read right. */
  lemma BlankBlockZero(fs: Fs, inode: seq<Byte>, lost: set<nat>)
    requires fs.Valid() && ValidInode(inode) && !UsesExtents(inode) && FileBlockCount(fs, inode) < Capacity(fs)
    requires Readable(fs, inode, lost) && AddressedRight(fs, inode, lost) && Blank(fs.Block(0))
    ensures ReadContents(fs, inode, lost) == Contents(fs, inode)
  {
    hide Mapped, Chase, ReadContents, Contents, InnerBase, Fs.Block;
    forall k | 0 <= k < FileBlockCount(fs, inode) && !Mapped(fs, inode, k)
      ensures ReadsBlank(fs, inode, lost, k)
    {
      assert FoundRight(fs, inode, lost, k);
      ZeroChain(fs, inode, k);
    }
    CopyExact(fs, inode, lost);
  }

  /** Block 0 shows the superblock's magic number, as it does on every file system with blocks of more
      than 1024 bytes. */
  predicate ShowsMagic(fs: Fs) {
    fs.Valid() && fs.blockSize > 1024 && Le16(fs.Block(0), MAGIC_OFFSET) == 0xEF53
  }

  /** On such a file system, a file addressed right whose pointer blocks all exist is read right if and only if none of
      its block pointers is zero; if the last one is, the last block must reach past the magic number to
      give it away. */
  lemma ZeroPointerExact(fs: Fs, inode: seq<Byte>, lost: set<nat>)
    requires fs.Valid() && ValidInode(inode) && !UsesExtents(inode) && Readable(fs, inode, lost) &&
            AddressedRight(fs, inode, lost)
    requires forall k :: 0 <= k < FileBlockCount(fs, inode) ==> k < Capacity(fs) && Trunk(fs, inode, k)
    requires FileBlockCount(fs, inode) < Capacity(fs) && ShowsMagic(fs)
    requires var n := FileBlockCount(fs, inode);
             n > 0 ==> Chase(fs, inode, n - 1) != 0 || ChunkLength(fs, inode, n - 1) > MAGIC_OFFSET + 1
    ensures ReadContents(fs, inode, lost) == Contents(fs, inode) <==>
            forall k :: 0 <= k < FileBlockCount(fs, inode) ==> k < Capacity(fs) && Chase(fs, inode, k) != 0
  {
    hide Chase, Trunk, ReadContents, Contents, InnerBase, Fs.Block, FileBlockCount, TailLength;
    CopyExact(fs, inode, lost);
    ReadableAnswers(fs, inode, lost);
    forall k | 0 <= k < FileBlockCount(fs, inode) && Chase(fs, inode, k) == 0
      ensures !ReadsBlank(fs, inode, lost, k)
    {
      assert FoundRight(fs, inode, lost, k);
      var read := fs.Block(0)[..ChunkLength(fs, inode, k)];
      assert read[MAGIC_OFFSET] == fs.Block(0)[MAGIC_OFFSET];
    }
  }

  /** The smallest case: a one-block file that is all hole is read as block 0 of the partition. */
  lemma HoleIsReadAsBlockZero(fs: Fs, inode: seq<Byte>, lost: set<nat>)
    requires fs.Valid() && ValidInode(inode) && !UsesExtents(inode)
    requires IBlock(inode, 0) == 0 && Size(inode) == fs.blockSize
    ensures Readable(fs, inode, lost) && Described(fs, inode) && !Mapped(fs, inode, 0)
    ensures ReadContents(fs, inode, lost) == fs.Block(0)
    ensures Contents(fs, inode) == seq(fs.blockSize, _ => 0)
  {
    hide InnerBase, Fs.Block;
    InnerBases(fs, 0, fs.AddrPerBlock());
    ReadableFiles(fs, inode, lost);
    assert FileBlockCount(fs, inode) == 1;
    assert BlocksUpTo(fs, inode, lost, 1) == BlocksUpTo(fs, inode, lost, 0) + fs.Block(0);
    assert FormatBlocksUpTo(fs, inode, 1) == FormatBlocksUpTo(fs, inode, 0) + FormatBlock(fs, inode, 0);
  }

  /** A hole of an extent file is read at the same distance from some extent of the tree, its start cut to
      32 bits. */
  lemma HoleIsReadBesideAnExtent(fs: Fs, inode: seq<Byte>, lost: set<nat>, k: nat)
    requires fs.Valid() && ValidInode(inode) && UsesExtents(inode) && ValidRoot(fs, inode)
    requires Answered(fs, inode, lost, k) && !Mapped(fs, inode, k)
    ensures exists e :: e in FileExtents(fs, inode) && !(e.Covers(k) && e.written) &&
                        Target(fs, inode, lost, k) + e.block == U32(e.start) + k
  {
    hide Flatten, WellFormed, LeafFor, Slot, Walkable;
    var root, depth := IBlockBytes(inode), RootDepth(inode);
    SelectedIsListed(fs, root, depth, 0, TWO_32, k);
    var leaf := LeafFor(fs, root, depth, k);
    var e := ExtentAt(leaf, Slot(leaf, k));
    U32Shift(StartHi(leaf, Slot(leaf, k)), StartLo(leaf, Slot(leaf, k)));
    CodeAddrExact(StartHi(leaf, Slot(leaf, k)), StartLo(leaf, Slot(leaf, k)));
    assert e in FileExtents(fs, inode);
  }
}
