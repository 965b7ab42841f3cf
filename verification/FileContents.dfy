/** The bytes the reader takes for a file, and the 32- and 64-bit arithmetic that cuts it into blocks. */
module FileContents {
  import opened Bytes
  import opened Volume
  import opened BlockMap
  import opened IndirectMap

  /** The blocks the reader finds for the first n blocks of a file, in logical order. */
  function BlocksUpTo(fs: Fs, inode: seq<Byte>, lost: set<nat>, n: nat): seq<Byte>
    requires fs.Valid() && ValidInode(inode)
    requires forall k :: 0 <= k < n ==> Answered(fs, inode, lost, k)
  {
    if n == 0 then [] else BlocksUpTo(fs, inode, lost, n - 1) + fs.Block(Target(fs, inode, lost, n - 1))
  }

  lemma {:induction false} BlocksUpToLength(fs: Fs, inode: seq<Byte>, lost: set<nat>, n: nat)
    requires fs.Valid() && ValidInode(inode)
    requires forall k :: 0 <= k < n ==> Answered(fs, inode, lost, k)
    ensures |BlocksUpTo(fs, inode, lost, n)| == n * fs.blockSize
  {
    hide Answered, Target, Readable, Fs.Block;
    if n > 0 {
      BlocksUpToLength(fs, inode, lost, n - 1);
      assert (n - 1) * fs.blockSize == n * fs.blockSize - fs.blockSize;
    }
  }

  /** What the reader takes for the whole file: those blocks cut to its size. */
  ghost function ReadContents(fs: Fs, inode: seq<Byte>, lost: set<nat>): (c: seq<Byte>)
    requires fs.Valid() && ValidInode(inode) && Readable(fs, inode, lost)
    ensures |c| == Size(inode)
  {
    ReadableAnswers(fs, inode, lost);
    BlocksUpToLength(fs, inode, lost, FileBlockCount(fs, inode));
    CeilDivBounds(Size(inode), fs.blockSize);
    BlocksUpTo(fs, inode, lost, FileBlockCount(fs, inode))[..Size(inode)]
  }

  lemma {:induction false} KeptBlocks(fs: Fs, inode: seq<Byte>, lost: set<nat>, n: nat)
    requires fs.Valid() && ValidInode(inode) && Readable(fs, inode, lost) && NothingLost(fs, inode, lost)
    requires !UsesExtents(inode) ==> FileBlockCount(fs, inode) < Capacity(fs)
    requires n <= FileBlockCount(fs, inode)
    ensures forall k :: 0 <= k < n ==> Answered(fs, inode, lost, k) && Answered(fs, inode, {}, k)
    ensures BlocksUpTo(fs, inode, lost, n) == BlocksUpTo(fs, inode, {}, n)
  {
    hide Answered, Target, Readable, NothingLost, Fs.Block, FileBlockCount, Capacity;
    ReadableAnswers(fs, inode, lost);
    if n > 0 {
      KeptTarget(fs, inode, lost, n - 1);
      KeptBlocks(fs, inode, lost, n - 1);
    }
  }

  /** Failed reads that are not needed leave no trace. */
  lemma KeptContents(fs: Fs, inode: seq<Byte>, lost: set<nat>)
    requires fs.Valid() && ValidInode(inode) && Readable(fs, inode, lost) && NothingLost(fs, inode, lost)
    requires !UsesExtents(inode) ==> FileBlockCount(fs, inode) < Capacity(fs)
    ensures Readable(fs, inode, {}) && ReadContents(fs, inode, lost) == ReadContents(fs, inode, {})
  {
    hide Answered, Target, NothingLost, Fs.Block, FileBlockCount, Capacity, BlocksUpTo;
    KeptBlocks(fs, inode, lost, FileBlockCount(fs, inode));
  }

  /** Bytes of the file that lie in its last block. */
  function TailLength(size: nat, bs: nat): nat
    requires size > 0 && bs > 0
  {
    CeilDivBounds(size, bs);
    size - (CeilDiv(size, bs) - 1) * bs
  }

  lemma TailLengthBounds(size: nat, bs: nat)
    requires size > 0 && bs > 0
    ensures 0 < TailLength(size, bs) <= bs
  {
  }

  /** Bytes of the file in its block k. */
  function ChunkLength(fs: Fs, inode: seq<Byte>, k: nat): (len: nat)
    requires fs.Valid() && ValidInode(inode) && k < FileBlockCount(fs, inode)
    ensures 0 < len <= fs.blockSize
  {
    CeilDivBounds(Size(inode), fs.blockSize);
    TailLengthBounds(Size(inode), fs.blockSize);
    if k + 1 < FileBlockCount(fs, inode) then fs.blockSize else TailLength(Size(inode), fs.blockSize)
  }

  /** All blocks but the last, then the cut last block, make up what is read. */
  lemma ContentsByBlocks(fs: Fs, inode: seq<Byte>, lost: set<nat>)
    requires fs.Valid() && ValidInode(inode) && Readable(fs, inode, lost) && Size(inode) > 0
    ensures var n := FileBlockCount(fs, inode);
            && n > 0 && (forall k :: 0 <= k < n ==> Answered(fs, inode, lost, k))
            && TailLength(Size(inode), fs.blockSize) <= fs.blockSize
            && ReadContents(fs, inode, lost) == BlocksUpTo(fs, inode, lost, n - 1)
                                      + fs.Block(Target(fs, inode, lost, n - 1))[..TailLength(Size(inode),
                                              fs.blockSize)]
  {
    hide Answered, Target, Readable, Fs.Block;
    ReadableAnswers(fs, inode, lost);
    CeilDivBounds(Size(inode), fs.blockSize);
    TailLengthBounds(Size(inode), fs.blockSize);
    BlocksUpToLength(fs, inode, lost, FileBlockCount(fs, inode) - 1);
  }

  /** Complete blocks are a prefix of the file as long as one more block follows. */
  lemma {:induction false} BlocksArePrefix(fs: Fs, inode: seq<Byte>, lost: set<nat>, i: nat, n: nat)
    requires fs.Valid() && ValidInode(inode) && i <= n
    requires forall k :: 0 <= k < n ==> Answered(fs, inode, lost, k)
    ensures BlocksUpTo(fs, inode, lost, i) <= BlocksUpTo(fs, inode, lost, n)
  {
    hide Answered, Target, Readable, Fs.Block;
    if i < n {
      BlocksArePrefix(fs, inode, lost, i, n - 1);
    }
  }

  lemma BlocksArePrefixOfFile(fs: Fs, inode: seq<Byte>, lost: set<nat>, i: nat)
    requires fs.Valid() && ValidInode(inode) && Readable(fs, inode, lost) && i < FileBlockCount(fs, inode)
    ensures forall k :: 0 <= k < i ==> Answered(fs, inode, lost, k)
    ensures BlocksUpTo(fs, inode, lost, i) <= ReadContents(fs, inode, lost)
  {
    hide Answered, Target, Readable, Fs.Block;
    CeilDivBounds(Size(inode), fs.blockSize);
    ContentsByBlocks(fs, inode, lost);
    BlocksArePrefix(fs, inode, lost, i, FileBlockCount(fs, inode) - 1);
  }

  // ----- the code's arithmetic -----

  /** n_blocks. */
  function CodeBlockCount(size: nat, bs: nat): nat
    requires bs > 0
  {
    U32(U64(size + bs - 1) / bs)
  }

  /** n_blocks - 1, the index the copy loop stops at. */
  function CodeLastBlock(size: nat, bs: nat): nat
    requires bs > 0
  {
    U32(CodeBlockCount(size, bs) - 1)
  }

  /** offset_max, the number of bytes written from the last block. */
  function CodeTail(size: nat, bs: nat): nat
    requires bs > 0
  {
    U32(U64(size - CodeLastBlock(size, bs) * bs))
  }

  lemma SplitBy32(m: nat)
    ensures U32(U32(m + 1) - 1) == U32(m)
  {
  }

  lemma TailIsExact(q: nat, last: nat, bs: nat, r: nat)
    requires 0 < r <= bs <= 65536 && (q * TWO_32 + last) * bs + r < TWO_64
    ensures U32(U64((q * TWO_32 + last) * bs + r - last * bs)) == r
    ensures last * bs + r <= (q * TWO_32 + last) * bs + r
    ensures last * bs + r == (q * TWO_32 + last) * bs + r <==> q == 0
  {
    Distribute(q, last, bs);
    MulMono(last, 0, bs);
    TailOfSum(q * bs, last * bs, r);
    MulMono(bs, 1, q);
  }

  lemma Distribute(q: nat, last: nat, bs: nat)
    ensures (q * TWO_32 + last) * bs == q * bs * TWO_32 + last * bs
  {
  }

  lemma TailOfSum(big: nat, part: nat, r: nat)
    requires r < TWO_32 && big * TWO_32 + part + r < TWO_64
    ensures U32(U64(big * TWO_32 + part + r - part)) == r
  {
  }

  /** The last chunk is never empty and never longer than a block, what is written never exceeds the
      file, and it is the whole file exactly when the file has at most 2^32 blocks. */
  lemma CopyArithmeticExact(size: nat, bs: nat)
    requires size > 0 && 0 < bs <= 65536 && size + bs < TWO_64
    ensures CodeTail(size, bs) == TailLength(size, bs) && 0 < CodeTail(size, bs) <= bs
    ensures CodeLastBlock(size, bs) * bs + CodeTail(size, bs) == size <==> CeilDiv(size, bs) <= TWO_32
    ensures CodeLastBlock(size, bs) * bs + CodeTail(size, bs) <= size
    ensures CeilDiv(size, bs) <= TWO_32 ==> CodeLastBlock(size, bs) == CeilDiv(size, bs) - 1
  {
    TailLengthBounds(size, bs);
    CeilDivBounds(size, bs);
    var n := CeilDiv(size, bs);
    var q := (n - 1) / TWO_32;
    SplitBy32(n - 1);
    assert n - 1 == q * TWO_32 + U32(n - 1);
    TailIsExact(q, U32(n - 1), bs, TailLength(size, bs));
  }

  // ----- partial copies -----

  /** c is `before` with some prefix of the file appended. */
  ghost predicate PartialCopy(fs: Fs, inode: seq<Byte>, lost: set<nat>, before: seq<Byte>, c: seq<Byte>)
    requires fs.Valid() && ValidInode(inode) && Readable(fs, inode, lost)
  {
    IsPrefix(before, c) && IsPrefix(c, before + ReadContents(fs, inode, lost))
  }

  /** `before` with the first i whole blocks appended. */
  ghost function CopiedTo(fs: Fs, inode: seq<Byte>, lost: set<nat>, before: seq<Byte>, i: nat): seq<Byte>
    requires fs.Valid() && ValidInode(inode)
    requires forall k :: 0 <= k < i ==> Answered(fs, inode, lost, k)
  {
    before + BlocksUpTo(fs, inode, lost, i)
  }

  lemma NothingCopied(fs: Fs, inode: seq<Byte>, lost: set<nat>, before: seq<Byte>)
    requires fs.Valid() && ValidInode(inode) && Readable(fs, inode, lost)
    ensures CopiedTo(fs, inode, lost, before, 0) == before && PartialCopy(fs, inode, lost, before, before)
  {
  }

  /** Writing all or part of block i on top of blocks 0 .. i - 1. */
  lemma BlockCopied(fs: Fs, inode: seq<Byte>, lost: set<nat>, before: seq<Byte>, i: nat, c: seq<Byte>)
    requires fs.Valid() && ValidInode(inode) && Readable(fs, inode, lost) && i + 1 < FileBlockCount(fs, inode)
    requires forall k :: 0 <= k <= i ==> Answered(fs, inode, lost, k)
    requires var chunk := fs.Block(Target(fs, inode, lost, i))[..fs.blockSize];
             IsPrefix(CopiedTo(fs, inode, lost, before, i), c) &&
                     IsPrefix(c, CopiedTo(fs, inode, lost, before, i) + chunk)
    ensures PartialCopy(fs, inode, lost, before, c)
    ensures c == CopiedTo(fs, inode, lost, before, i) + fs.Block(Target(fs, inode, lost, i))[..fs.blockSize] ==>
              c == CopiedTo(fs, inode, lost, before, i + 1)
  {
    hide Answered, Target, Readable, Fs.Block;
    var block, done := fs.Block(Target(fs, inode, lost, i)), BlocksUpTo(fs, inode, lost, i);
    BlocksArePrefixOfFile(fs, inode, lost, i + 1);
    assert block[..fs.blockSize] == block;
    assert (before + done) + block == before + (done + block);
    assert IsPrefix(before + (done + block), before + ReadContents(fs, inode, lost));
  }

  /** Writing all or part of the cut last block on top of all the others. */
  lemma TailCopied(fs: Fs, inode: seq<Byte>, lost: set<nat>, before: seq<Byte>, c: seq<Byte>)
    requires fs.Valid() && ValidInode(inode) && Readable(fs, inode, lost) && Size(inode) > 0
    requires var n, tail := FileBlockCount(fs, inode), TailLength(Size(inode), fs.blockSize);
             && n > 0 && tail <= fs.blockSize && (forall k :: 0 <= k < n ==> Answered(fs, inode, lost, k))
             && IsPrefix(CopiedTo(fs, inode, lost, before, n - 1), c)
             && IsPrefix(c, CopiedTo(fs, inode, lost, before, n - 1) + fs.Block(Target(fs, inode, lost, n - 1))[..tail])
    ensures PartialCopy(fs, inode, lost, before, c)
    ensures var n, tail := FileBlockCount(fs, inode), TailLength(Size(inode), fs.blockSize);
            c == CopiedTo(fs, inode, lost, before, n - 1) + fs.Block(Target(fs, inode, lost, n - 1))[..tail] ==>
              c == before + ReadContents(fs, inode, lost)
  {
    hide Answered, Target, Readable, Fs.Block;
    ContentsByBlocks(fs, inode, lost);
    var n, tail := FileBlockCount(fs, inode), TailLength(Size(inode), fs.blockSize);
    var done, last := BlocksUpTo(fs, inode, lost, n - 1), fs.Block(Target(fs, inode, lost, n - 1))[..tail];
    assert (before + done) + last == before + (done + last);
  }

  /** Whole blocks are never empty. */
  lemma CopiedGrows(fs: Fs, inode: seq<Byte>, lost: set<nat>, before: seq<Byte>, i: nat)
    requires fs.Valid() && ValidInode(inode)
    requires forall k :: 0 <= k < i ==> Answered(fs, inode, lost, k)
    ensures CopiedTo(fs, inode, lost, before, i) == before <==> i == 0
  {
  }
}
