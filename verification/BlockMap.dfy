/** The abstract block map of a file, whichever of the two layouts its inode uses. */
module BlockMap {
  import opened Bytes
  import opened Volume
  import opened IndirectMap
  import opened ExtentTree

  /** `n_block` as the block cursor's constructor computes it: from the low half of the size. */
  function CursorBlockCount(fs: Fs, inode: seq<Byte>): (n: nat)
    requires fs.Valid() && ValidInode(inode)
    ensures n < TWO_32
  {
    U32(SizeLo(inode) + fs.blockSize - 1) / fs.blockSize
  }

  /** Rounding up the 32-bit wrapped size loses blocks exactly when the rounded-up size needs more than
      32 bits; q is the number of b-sized blocks in 2^32. */
  lemma WrappedCount(lo: nat, x: nat, b: nat, q: nat)
    requires b > 0 && q * b == TWO_32 && U32(lo) == U32(x) && lo <= x && (x < TWO_32 ==> lo == x)
    ensures U32(lo) / b == x / b <==> x < TWO_32
  {
    if x >= TWO_32 {
      DivLess(U32(lo), b, q);
      assert x == x / b * b + x % b;
      MulMono(b, x / b + 1, q);
      assert (x / b + 1) * b == x / b * b + b;
    }
  }

  /** The constructor's count is the file's block count exactly while the rounded-up size fits in 32 bits. */
  lemma CursorBlockCountExact(fs: Fs, inode: seq<Byte>)
    requires fs.Valid() && ValidInode(inode)
    ensures CursorBlockCount(fs, inode) == FileBlockCount(fs, inode) <==> Size(inode) + fs.blockSize - 1 < TWO_32
  {
    var lo, x := SizeLo(inode) + fs.blockSize - 1, Size(inode) + fs.blockSize - 1;
    hide Le32, U32;
    U32Shift(SizeHigh(inode), lo);
    WrappedCount(lo, x, fs.blockSize, TWO_32 / fs.blockSize);
  }

  /** The requests for a non-extent file, front to back: answered right if and only if the file is short
      enough for the first request the miscounting cursor gets wrong (if there is one). */
  lemma SequentialReadExact(fs: Fs, inode: seq<Byte>)
    requires fs.Valid() && ValidInode(inode) && FileBlockCount(fs, inode) < Capacity(fs)
    requires Distinct(fs, inode, FileBlockCount(fs, inode))
    ensures var wrong := FirstWrong(fs, CursorBlockCount(fs, inode));
            Answers(fs, inode, CursorBlockCount(fs, inode), START, 0, FileBlockCount(fs, inode)) <==>
            (wrong.Some? ==> FileBlockCount(fs, inode) <= wrong.value)
  {
    hide InnerBase, Answers, Chase, Row, Col;
    CursorExact(fs, inode, CursorBlockCount(fs, inode), FileBlockCount(fs, inode));
  }

  /** Depth of the extent tree rooted in the inode. */
  function RootDepth(inode: seq<Byte>): nat
    requires ValidInode(inode)
  {
    HeaderDepth(IBlockBytes(inode))
  }

  predicate ValidRoot(fs: Fs, inode: seq<Byte>)
    requires ValidInode(inode)
  {
    Magic(IBlockBytes(inode)) == EXT_MAGIC && WellFormed(fs, IBlockBytes(inode), RootDepth(inode), 0, TWO_32)
  }

  /** The extents of a file, in logical order. */
  function FileExtents(fs: Fs, inode: seq<Byte>): (f: seq<Extent>)
    requires ValidInode(inode) && ValidRoot(fs, inode)
    ensures Ordered(f, 0, TWO_32)
  {
    FlattenOrdered(fs, IBlockBytes(inode), RootDepth(inode), 0, TWO_32);
    Flatten(fs, IBlockBytes(inode), RootDepth(inode), 0, TWO_32)
  }

  // ----- the map the format defines -----

  /** Logical block k of the file is mapped: a written extent covers it, or no pointer on the way to it
      is zero. Every other block is a hole. */
  ghost predicate Mapped(fs: Fs, inode: seq<Byte>, k: nat)
    requires fs.Valid() && ValidInode(inode)
  {
    if UsesExtents(inode) then
      ValidRoot(fs, inode) && exists e :: e in FileExtents(fs, inode) && e.Covers(k) && e.written
    else k < Capacity(fs) && Trunk(fs, inode, k) && Chase(fs, inode, k) != 0
  }

  /** The physical block that holds logical block k. */
  ghost function Map(fs: Fs, inode: seq<Byte>, k: nat): nat
    requires fs.Valid() && ValidInode(inode) && Mapped(fs, inode, k)
  {
    if UsesExtents(inode) then
      var e :| e in FileExtents(fs, inode) && e.Covers(k);
      e.start + (k - e.block)
    else Chase(fs, inode, k)
  }

  /** The layout says what every block of the file is: a well-formed tree, or pointers without triple
      indirection. */
  predicate Described(fs: Fs, inode: seq<Byte>)
    requires fs.Valid() && ValidInode(inode)
  {
    if UsesExtents(inode) then ValidRoot(fs, inode) else FileBlockCount(fs, inode) <= Capacity(fs)
  }

  /** A described file without holes. */
  ghost predicate WellMapped(fs: Fs, inode: seq<Byte>)
    requires fs.Valid() && ValidInode(inode)
  {
    Described(fs, inode) && forall k :: 0 <= k < FileBlockCount(fs, inode) ==> Mapped(fs, inode, k)
  }

  // ----- the map the code computes, which knows no holes -----

  /** A request for block k of a file that is read front to back settles on some physical block: the walk
      through the tree finds an extent, or the cursor is in bounds. */
  predicate Answered(fs: Fs, inode: seq<Byte>, lost: set<nat>, k: nat)
    requires fs.Valid() && ValidInode(inode)
  {
    if UsesExtents(inode) then Selects(fs, IBlockBytes(inode), RootDepth(inode), k)
    else Served(fs, inode, CursorBlockCount(fs, inode), lost, k)
  }

  /** That block: the one an uncached walk selects, or the cursor's answer. */
  function Target(fs: Fs, inode: seq<Byte>, lost: set<nat>, k: nat): nat
    requires fs.Valid() && ValidInode(inode) && Answered(fs, inode, lost, k)
  {
    if UsesExtents(inode) then Selected(fs, IBlockBytes(inode), RootDepth(inode), k)
    else Answer(fs, inode, CursorBlockCount(fs, inode), lost, k)
  }

  /** The files whose every block is answered. */
  predicate Readable(fs: Fs, inode: seq<Byte>, lost: set<nat>)
    requires fs.Valid() && ValidInode(inode)
  {
    && FileBlockCount(fs, inode) <= TWO_32
    && (UsesExtents(inode) ==> Magic(IBlockBytes(inode)) == EXT_MAGIC)
    && forall k :: 0 <= k < FileBlockCount(fs, inode) ==> Answered(fs, inode, lost, k)
  }

  /** The answers are those the layout calls for: the mapped blocks, or the end of every pointer chase. */
  ghost predicate AddressedRight(fs: Fs, inode: seq<Byte>, lost: set<nat>)
    requires fs.Valid() && ValidInode(inode) && Readable(fs, inode, lost)
  {
    ReadableAnswers(fs, inode, lost);
    forall k :: 0 <= k < FileBlockCount(fs, inode) ==> FoundRight(fs, inode, lost, k)
  }

  ghost predicate FoundRight(fs: Fs, inode: seq<Byte>, lost: set<nat>, k: nat)
    requires fs.Valid() && ValidInode(inode) && Answered(fs, inode, lost, k)
  {
    if UsesExtents(inode) then Mapped(fs, inode, k) ==> Target(fs, inode, lost, k) == Map(fs, inode, k)
    else Target(fs, inode, lost, k) == Chase(fs, inode, k)
  }

  /** Ordered extents cover a block at most once. */
  lemma CoveringIsUnique(f: seq<Extent>, k: nat, e: Extent, e': Extent)
    requires Ordered(f, 0, TWO_32) && e in f && e' in f && e.Covers(k) && e'.Covers(k)
    ensures e == e'
  {
  }

  /** On a well-formed tree the walk settles on the low half of the mapped block's address: on the mapped
      block exactly if the extent that covers it starts below block 2^32. */
  lemma SelectedIsMap(fs: Fs, inode: seq<Byte>, k: nat, e: Extent)
    requires fs.Valid() && ValidInode(inode) && UsesExtents(inode) && Mapped(fs, inode, k)
    requires e in FileExtents(fs, inode) && e.Covers(k)
    ensures Selects(fs, IBlockBytes(inode), RootDepth(inode), k) && k < TWO_32
    ensures Selected(fs, IBlockBytes(inode), RootDepth(inode), k) == Map(fs, inode, k) <==> e.start < TWO_32
  {
    hide Flatten, WellFormed, LeafFor, Slot, Walkable;
    var root, depth := IBlockBytes(inode), RootDepth(inode);
    var e' :| e' in FileExtents(fs, inode) && e'.Covers(k) && Map(fs, inode, k) == e'.start + (k - e'.block);
    CoveringIsUnique(FileExtents(fs, inode), k, e, e');
    WalkFindsCovering(fs, root, depth, 0, TWO_32, k, e);
    var leaf := LeafFor(fs, root, depth, k);
    CodeAddrExact(StartHi(leaf, Slot(leaf, k)), StartLo(leaf, Slot(leaf, k)));
    assert e.block + e.len <= TWO_32 by {
      var x :| 0 <= x < |FileExtents(fs, inode)| && FileExtents(fs, inode)[x] == e;
    }
  }

  /** On a well-formed tree the lookup of a mapped block is right exactly if the extent that covers it
      starts below block 2^32. */
  lemma ColdLookupIsMap(fs: Fs, inode: seq<Byte>, k: nat, e: Extent)
    requires fs.Valid() && ValidInode(inode) && UsesExtents(inode) && Mapped(fs, inode, k)
    requires e in FileExtents(fs, inode) && e.Covers(k)
    ensures Walkable(fs, IBlockBytes(inode), RootDepth(inode), k)
    ensures ColdLookup(fs, IBlockBytes(inode), RootDepth(inode), k) == Some(Map(fs, inode, k)) <==> e.start < TWO_32
  {
    hide ColdLookup, Mapped, Map, FileExtents;
    SelectedIsMap(fs, inode, k, e);
    ColdLookupIsSelected(fs, IBlockBytes(inode), RootDepth(inode), k);
  }

  /** A file without holes is answered throughout if it uses extents; one of the pointer layout, holes or
      not, if it stops short of the last double-indirect slot, whatever block count the cursor got. */
  lemma ReadableFiles(fs: Fs, inode: seq<Byte>, lost: set<nat>)
    requires fs.Valid() && ValidInode(inode)
    ensures UsesExtents(inode) && WellMapped(fs, inode) ==> Readable(fs, inode, lost)
    ensures !UsesExtents(inode) && FileBlockCount(fs, inode) < Capacity(fs) ==> Readable(fs, inode, lost)
  {
    hide Mapped, Selects, Capacity, ValidRoot, Served;
    var n := FileBlockCount(fs, inode);
    if UsesExtents(inode) && WellMapped(fs, inode) {
      forall k | 0 <= k < n
        ensures Answered(fs, inode, lost, k) && k < TWO_32
      {
        MappedIsCovered(fs, inode, k);
        var e :| e in FileExtents(fs, inode) && e.Covers(k) && e.written;
        SelectedIsMap(fs, inode, k, e);
      }
      assert n > 0 ==> Answered(fs, inode, lost, n - 1);
      RootMagic(fs, inode);
    } else if !UsesExtents(inode) && n < Capacity(fs) {
      CapacityFits(fs);
      forall k | 0 <= k < n
        ensures Answered(fs, inode, lost, k)
      {
        AlwaysInBounds(fs, inode, CursorBlockCount(fs, inode), lost, k);
      }
    }
  }

  lemma MappedIsCovered(fs: Fs, inode: seq<Byte>, k: nat)
    requires fs.Valid() && ValidInode(inode) && UsesExtents(inode) && Mapped(fs, inode, k)
    ensures ValidRoot(fs, inode) && exists e :: e in FileExtents(fs, inode) && e.Covers(k) && e.written
  {
  }

  /** An extent file is addressed right exactly if all extents that hold its blocks start below 2^32. */
  lemma ExtentsAddressedExact(fs: Fs, inode: seq<Byte>, lost: set<nat>)
    requires fs.Valid() && ValidInode(inode) && UsesExtents(inode) && Readable(fs, inode, lost) && ValidRoot(fs, inode)
    ensures AddressedRight(fs, inode, lost) <==>
            forall e, k ::
              e in FileExtents(fs, inode) && e.written && 0 <= k < FileBlockCount(fs, inode) && e.Covers(k) ==>
                e.start < TWO_32
  {
    hide Selects, Selected, Flatten, WellFormed, FileBlockCount, Map;
    ReadableAnswers(fs, inode, lost);
    forall e, k | e in FileExtents(fs, inode) && e.written && 0 <= k < FileBlockCount(fs, inode) && e.Covers(k)
      ensures FoundRight(fs, inode, lost, k) <==> e.start < TWO_32
    {
      SelectedIsMap(fs, inode, k, e);
    }
  }

  /** A pointer file is addressed right exactly if the cursor's run over it is. */
  lemma PointersAddressedExact(fs: Fs, inode: seq<Byte>, lost: set<nat>)
    requires fs.Valid() && ValidInode(inode) && !UsesExtents(inode) && FileBlockCount(fs, inode) < Capacity(fs)
    ensures Readable(fs, inode, lost)
    ensures AddressedRight(fs, inode, lost) <==>
            AllRight(fs, inode, CursorBlockCount(fs, inode), lost, FileBlockCount(fs, inode))
  {
    hide Served, Answer, Chase, Capacity, FileBlockCount, CursorBlockCount;
    ReadableFiles(fs, inode, lost);
    ReadableAnswers(fs, inode, lost);
    var n, nBlock := FileBlockCount(fs, inode), CursorBlockCount(fs, inode);
    assert forall k :: 0 <= k < n ==> Answered(fs, inode, lost, k) && Served(fs, inode, nBlock, lost, k);
    assert forall k :: 0 <= k < n ==>
             (FoundRight(fs, inode, lost, k) <==> Answer(fs, inode, nBlock, lost, k) == Chase(fs, inode, k));
  }

  /** So as long as no read fails always when its rounded-up size fits in 32 bits. */
  lemma SmallPointerFiles(fs: Fs, inode: seq<Byte>)
    requires fs.Valid() && ValidInode(inode) && !UsesExtents(inode) && FileBlockCount(fs, inode) < Capacity(fs)
    ensures Readable(fs, inode, {})
    ensures AddressedRight(fs, inode, {}) <==>
            Answers(fs, inode, CursorBlockCount(fs, inode), START, 0, FileBlockCount(fs, inode))
    ensures Size(inode) + fs.blockSize - 1 < TWO_32 ==> AddressedRight(fs, inode, {})
  {
    hide AllRight, Capacity, Answers, FileBlockCount, CursorBlockCount, Readable, AddressedRight;
    PointersAddressedExact(fs, inode, {});
    AnswersOneByOne(fs, inode, CursorBlockCount(fs, inode), FileBlockCount(fs, inode));
    if Size(inode) + fs.blockSize - 1 < TWO_32 {
      CursorBlockCountExact(fs, inode);
      TrueCountIsRight(fs, inode, CursorBlockCount(fs, inode));
    }
  }

  /** Failed reads of the double-indirect block are never noticed. Over blocks that are all different, a file is
      addressed right in spite of them exactly if it would be without them and no load hits one; if its
      rounded-up size fits in 32 bits that is about a single request, the first that needs the block. */
  lemma LostReadsExact(fs: Fs, inode: seq<Byte>, lost: set<nat>)
    requires fs.Valid() && ValidInode(inode) && !UsesExtents(inode) && FileBlockCount(fs, inode) < Capacity(fs)
    requires Distinct(fs, inode, FileBlockCount(fs, inode))
    ensures Readable(fs, inode, lost) && Readable(fs, inode, {})
    ensures AddressedRight(fs, inode, lost) <==>
            AddressedRight(fs, inode, {}) &&
            LoadsKept(fs, CursorBlockCount(fs, inode), lost, FileBlockCount(fs, inode))
    ensures Size(inode) + fs.blockSize - 1 < TWO_32 ==>
              (AddressedRight(fs, inode, lost) <==>
               FileBlockCount(fs, inode) <= IND_BLOCK + fs.AddrPerBlock() || IND_BLOCK + fs.AddrPerBlock() !in lost)
  {
    hide AllRight, Capacity, FileBlockCount, CursorBlockCount, LoadsKept, Distinct, Readable, AddressedRight;
    PointersAddressedExact(fs, inode, lost);
    PointersAddressedExact(fs, inode, {});
    LostLoadsExact(fs, inode, CursorBlockCount(fs, inode), lost, FileBlockCount(fs, inode));
    if Size(inode) + fs.blockSize - 1 < TWO_32 {
      CursorBlockCountExact(fs, inode);
      LostLoadExact(fs, inode, lost, FileBlockCount(fs, inode));
    }
  }

  /** Right or wrong, what is read for a pointer file are blocks of the file. */
  lemma TargetInFile(fs: Fs, inode: seq<Byte>, lost: set<nat>, k: nat) returns (k': nat)
    requires fs.Valid() && ValidInode(inode) && !UsesExtents(inode)
    requires k < FileBlockCount(fs, inode) < Capacity(fs)
    ensures Answered(fs, inode, lost, k)
    ensures k' <= k && Target(fs, inode, lost, k) == Chase(fs, inode, k')
  {
    hide Served, Answer, Chase, Capacity, FileBlockCount, CursorBlockCount;
    k' := NeverLeavesFile(fs, inode, CursorBlockCount(fs, inode), lost, k);
  }

  /** The double-indirect block cannot be read when request k needs it; the address of the request before stays
      in use. */
  predicate Stalled(fs: Fs, inode: seq<Byte>, lost: set<nat>, k: nat)
    requires fs.Valid() && ValidInode(inode) && Answered(fs, inode, lost, k)
  {
    !UsesExtents(inode) && Stalls(fs, lost, RunTo(fs, inode, CursorBlockCount(fs, inode), lost, k).value, k)
  }

  lemma StalledTarget(fs: Fs, inode: seq<Byte>, lost: set<nat>, k: nat)
    requires fs.Valid() && ValidInode(inode) && Answered(fs, inode, lost, k) && Stalled(fs, inode, lost, k)
    ensures k > 0 && Answered(fs, inode, lost, k - 1)
    ensures Target(fs, inode, lost, k) == Target(fs, inode, lost, k - 1)
  {
  }

  /** None of the reads that fail is needed. */
  predicate NothingLost(fs: Fs, inode: seq<Byte>, lost: set<nat>)
    requires fs.Valid() && ValidInode(inode)
  {
    UsesExtents(inode) || LoadsKept(fs, CursorBlockCount(fs, inode), lost, FileBlockCount(fs, inode))
  }

  /** Then everything is found as if nothing could fail. */
  lemma KeptTarget(fs: Fs, inode: seq<Byte>, lost: set<nat>, k: nat)
    requires fs.Valid() && ValidInode(inode) && NothingLost(fs, inode, lost) && k < FileBlockCount(fs, inode)
    requires UsesExtents(inode) ==> Answered(fs, inode, lost, k)
    requires !UsesExtents(inode) ==> FileBlockCount(fs, inode) < Capacity(fs)
    ensures Answered(fs, inode, lost, k) && Answered(fs, inode, {}, k)
    ensures Target(fs, inode, lost, k) == Target(fs, inode, {}, k)
  {
    hide Served, Answer, Capacity, FileBlockCount, CursorBlockCount, LoadsAt;
    if !UsesExtents(inode) {
      NextUndisturbed(fs, inode, CursorBlockCount(fs, inode), lost, k);
    }
  }

  /** Every request for such a file is answered. */
  lemma ReadableAnswers(fs: Fs, inode: seq<Byte>, lost: set<nat>)
    requires fs.Valid() && ValidInode(inode) && Readable(fs, inode, lost)
    ensures forall k :: 0 <= k < FileBlockCount(fs, inode) ==> Answered(fs, inode, lost, k)
  {
  }

  /** Addressed right, every mapped block is found. */
  lemma TargetIsMap(fs: Fs, inode: seq<Byte>, lost: set<nat>, k: nat)
    requires fs.Valid() && ValidInode(inode) && Readable(fs, inode, lost) && AddressedRight(fs, inode, lost)
    requires k < FileBlockCount(fs, inode) && Mapped(fs, inode, k)
    ensures Answered(fs, inode, lost, k) && Target(fs, inode, lost, k) == Map(fs, inode, k)
  {
    hide Chase, Selected, Answer;
    ReadableAnswers(fs, inode, lost);
    assert FoundRight(fs, inode, lost, k);
  }

  lemma RootMagic(fs: Fs, inode: seq<Byte>)
    requires ValidInode(inode) && ValidRoot(fs, inode)
    ensures Magic(IBlockBytes(inode)) == EXT_MAGIC
  {
  }
}
