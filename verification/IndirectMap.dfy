/** Direct, indirect and double-indirect block addressing: the stateless pointer chase and the
    sequential cursor that is supposed to agree with it. */
module IndirectMap {
  import opened Bytes
  import opened Volume

  const IND_BLOCK := 12
  const DIND_BLOCK := 13

  // ----- geometry: logical block numbers and double-indirect coordinates -----

  /** First logical block addressed through entry 0 of inner block o. */
  function InnerBase(fs: Fs, o: nat): nat {
    IND_BLOCK + fs.AddrPerBlock() + o * fs.AddrPerBlock()
  }

  /** First logical block beyond double indirection: 12 + A + A * A. */
  function Capacity(fs: Fs): nat {
    InnerBase(fs, fs.AddrPerBlock())
  }

  /** Which inner block addresses logical block k. */
  function Row(fs: Fs, k: nat): nat
    requires fs.Valid() && k >= IND_BLOCK + fs.AddrPerBlock()
  {
    (k - IND_BLOCK - fs.AddrPerBlock()) / fs.AddrPerBlock()
  }

  /** Which entry of that inner block does. */
  function Col(fs: Fs, k: nat): nat
    requires fs.Valid() && k >= IND_BLOCK + fs.AddrPerBlock()
  {
    (k - IND_BLOCK - fs.AddrPerBlock()) % fs.AddrPerBlock()
  }

  lemma Coordinates(fs: Fs, k: nat)
    requires fs.Valid() && IND_BLOCK + fs.AddrPerBlock() <= k
    ensures Col(fs, k) < fs.AddrPerBlock() && k == InnerBase(fs, Row(fs, k)) + Col(fs, k)
    ensures k < Capacity(fs) ==> Row(fs, k) < fs.AddrPerBlock()
  {
  }

  lemma FromCoordinates(fs: Fs, o: nat, j: nat)
    requires fs.Valid() && j < fs.AddrPerBlock()
    ensures var k := InnerBase(fs, o) + j;
            k >= IND_BLOCK + fs.AddrPerBlock() && Row(fs, k) == o && Col(fs, k) == j
  {
    DivModUnique(o * fs.AddrPerBlock() + j, fs.AddrPerBlock(), o, j);
  }

  lemma InnerBases(fs: Fs, o: nat, o': nat)
    ensures InnerBase(fs, 0) == IND_BLOCK + fs.AddrPerBlock()
    ensures InnerBase(fs, o + 1) == InnerBase(fs, o) + fs.AddrPerBlock()
    ensures o < o' ==> InnerBase(fs, o) + fs.AddrPerBlock() <= InnerBase(fs, o')
  {
  }

  /** Block numbers below the capacity fit in 32 bits, so none of them equals (unsigned int)-1. */
  lemma CapacityFits(fs: Fs)
    requires fs.Valid()
    ensures Capacity(fs) < TWO_32 - 1
  {
  }

  // ----- pointer chasing -----

  function Word(fs: Fs, buffer: seq<Byte>, i: nat): nat
    requires fs.Valid() && |buffer| == fs.blockSize && i < fs.AddrPerBlock()
  {
    Le32(buffer, 4 * i)
  }

  /** The i-th block number stored in block `nr`. */
  function Ptr(fs: Fs, nr: nat, i: nat): nat
    requires fs.Valid() && i < fs.AddrPerBlock()
  {
    Word(fs, fs.Block(nr), i)
  }

  /** Entry j of inner block o, found through the double-indirect block. */
  function DoublePtr(fs: Fs, inode: seq<Byte>, o: nat, j: nat): nat
    requires fs.Valid() && ValidInode(inode) && o < fs.AddrPerBlock() && j < fs.AddrPerBlock()
  {
    Ptr(fs, Ptr(fs, IBlock(inode, DIND_BLOCK), o), j)
  }

  /** The physical block of logical block k, by chasing pointers from the inode. */
  function Chase(fs: Fs, inode: seq<Byte>, k: nat): nat
    requires fs.Valid() && ValidInode(inode) && k < Capacity(fs)
  {
    if k < IND_BLOCK then IBlock(inode, k)
    else if k < IND_BLOCK + fs.AddrPerBlock() then Ptr(fs, IBlock(inode, IND_BLOCK), k - IND_BLOCK)
    else
      Coordinates(fs, k);
      DoublePtr(fs, inode, Row(fs, k), Col(fs, k))
  }

  /** The pointer blocks on the way to logical block k exist: no pointer to one of them is zero. */
  predicate Trunk(fs: Fs, inode: seq<Byte>, k: nat)
    requires fs.Valid() && ValidInode(inode) && k < Capacity(fs)
  {
    if k < IND_BLOCK then true
    else if k < IND_BLOCK + fs.AddrPerBlock() then IBlock(inode, IND_BLOCK) != 0
    else
      Coordinates(fs, k);
      IBlock(inode, DIND_BLOCK) != 0 && Ptr(fs, IBlock(inode, DIND_BLOCK), Row(fs, k)) != 0
  }

  // ----- the cursor -----

  /** The buffered pointer block and the buffered double-indirect block, each with the index of the
      entry to use next. */
  datatype Cursor = Cursor(buffer: Option<seq<Byte>>, ind: nat, dbuf: Option<seq<Byte>>, dind: nat)

  const START := Cursor(None, 0, None, 0)

  predicate Buffers(fs: Fs, cur: Cursor) {
    && (cur.buffer.Some? ==> |cur.buffer.value| == fs.blockSize)
    && (cur.dbuf.Some? ==> |cur.dbuf.value| == fs.blockSize)
  }

  /** The array reads a request for block k performs stay inside the buffers. */
  predicate InBounds(fs: Fs, cur: Cursor, k: nat) {
    && Buffers(fs, cur)
    && (k >= IND_BLOCK ==> cur.ind < fs.AddrPerBlock())
    && (k >= IND_BLOCK + fs.AddrPerBlock() && cur.dbuf.Some? ==> cur.dind < fs.AddrPerBlock())
  }

  /** One call of `indirect_blk_nr`: `nBlock` is the block count the cursor was built with. */
  function IndirectStep(fs: Fs, nBlock: nat, cur: Cursor, nr: nat): (r: (Cursor, nat))
    requires fs.Valid() && Buffers(fs, cur) && cur.ind < fs.AddrPerBlock()
    ensures Buffers(fs, r.0) && r.0.dbuf == cur.dbuf && r.0.dind == cur.dind
  {
    var buffer := if cur.buffer.None? then fs.Block(nr) else cur.buffer.value;
    var drop := if cur.buffer.None? then cur.ind == U32(nBlock - 1)
                else cur.ind + 1 == fs.AddrPerBlock() || cur.ind + 1 == nBlock;
    (if drop then cur.(buffer := None, ind := 0) else cur.(buffer := Some(buffer), ind := cur.ind + 1),
     Word(fs, buffer, cur.ind))
  }

  /** A request in the double-indirect range, with the double-indirect block already buffered. */
  function BufferedStep(fs: Fs, nBlock: nat, cur: Cursor, k: nat): (r: (Cursor, nat))
    requires fs.Valid() && Buffers(fs, cur) && cur.dbuf.Some?
    requires cur.ind < fs.AddrPerBlock() && cur.dind < fs.AddrPerBlock()
    ensures Buffers(fs, r.0)
  {
    var (next, nr) := IndirectStep(fs, nBlock, cur, Word(fs, cur.dbuf.value, cur.dind));
    var bumped := if next.ind == fs.AddrPerBlock() - 1 then next.(dind := next.dind + 1) else next;
    (if k == Capacity(fs) - 1 || k == U32(nBlock - 1) then bumped.(dbuf := None, dind := 0) else bumped, nr)
  }

  /** A request in the double-indirect range that has to load the double-indirect block first. */
  function LoadingStep(fs: Fs, nBlock: nat, cur: Cursor, k: nat, dindBlock: nat): (r: (Cursor, nat))
    requires fs.Valid() && Buffers(fs, cur) && cur.ind < fs.AddrPerBlock()
    ensures Buffers(fs, r.0)
  {
    var loaded := cur.(dbuf := Some(fs.Block(dindBlock)));
    var (next, nr) := IndirectStep(fs, nBlock, loaded, Word(fs, loaded.dbuf.value, 0));
    (if k == U32(nBlock - 1) then next.(dbuf := None, dind := 0) else next, nr)
  }

  /** One call of `get_ext2_non_extent_blk` below the double-indirect capacity. */
  function Step(fs: Fs, inode: seq<Byte>, nBlock: nat, cur: Cursor, k: nat): (r: (Cursor, nat))
    requires fs.Valid() && ValidInode(inode) && k < Capacity(fs) && InBounds(fs, cur, k)
    ensures Buffers(fs, r.0)
  {
    if k < IND_BLOCK then (cur, IBlock(inode, k))
    else if k < IND_BLOCK + fs.AddrPerBlock() then IndirectStep(fs, nBlock, cur, IBlock(inode, IND_BLOCK))
    else if cur.dbuf.None? then LoadingStep(fs, nBlock, cur, k, IBlock(inode, DIND_BLOCK))
    else BufferedStep(fs, nBlock, cur, k)
  }

  // ----- the state a cursor must be in -----

  /** Inside the double-indirect range: next is entry j of inner block o, and `dind` holds dv. */
  predicate Inner(fs: Fs, inode: seq<Byte>, cur: Cursor, o: nat, j: nat, dv: nat)
    requires fs.Valid() && ValidInode(inode) && o < fs.AddrPerBlock() && j < fs.AddrPerBlock()
  {
    && cur.dbuf == Some(fs.Block(IBlock(inode, DIND_BLOCK)))
    && cur.dind == dv
    && cur.ind == j
    && cur.buffer == (if j == 0 then None else Some(fs.Block(Ptr(fs, IBlock(inode, DIND_BLOCK), o))))
  }

  /** `dind` runs one ahead while the last entry of an inner block is pending. */
  function DindAt(a: nat, o: nat, j: nat): nat {
    if j + 1 == a then o + 1 else o
  }

  /** The cursor is in step with a caller about to ask for block k. */
  predicate At(fs: Fs, inode: seq<Byte>, cur: Cursor, k: nat)
    requires fs.Valid() && ValidInode(inode) && k < Capacity(fs)
  {
    var a := fs.AddrPerBlock();
    if k <= IND_BLOCK || k == IND_BLOCK + a then cur == START
    else if k < IND_BLOCK + a then
      cur == Cursor(Some(fs.Block(IBlock(inode, IND_BLOCK))), k - IND_BLOCK, None, 0)
    else
      Coordinates(fs, k);
      Inner(fs, inode, cur, Row(fs, k), Col(fs, k), DindAt(a, Row(fs, k), Col(fs, k)))
  }

  /** `At` and the pointer chase in the double-indirect range, by coordinates. */
  lemma DoubleAt(fs: Fs, inode: seq<Byte>, cur: Cursor, k: nat, o: nat, j: nat)
    requires fs.Valid() && ValidInode(inode) && o < fs.AddrPerBlock() && j < fs.AddrPerBlock()
    requires k == InnerBase(fs, o) + j
    ensures IND_BLOCK + fs.AddrPerBlock() <= k < Capacity(fs)
    ensures k == Capacity(fs) - 1 <==> o == fs.AddrPerBlock() - 1 && j == fs.AddrPerBlock() - 1
    ensures Chase(fs, inode, k) == DoublePtr(fs, inode, o, j)
    ensures At(fs, inode, cur, k) ==
            if o == 0 && j == 0 then cur == START else Inner(fs, inode, cur, o, j, DindAt(fs.AddrPerBlock(), o, j))
  {
    hide InnerBase, Row, Col;
    FromCoordinates(fs, o, j);
    InnerBases(fs, o, fs.AddrPerBlock());
    InnerBases(fs, o + 1, fs.AddrPerBlock());
    InnerBases(fs, 0, o);
  }

  /** In step, the only request that reads outside its buffers is the very last double-indirect one:
      `dind` has been bumped past the end of the block by then. */
  lemma InBoundsExact(fs: Fs, inode: seq<Byte>, cur: Cursor, k: nat)
    requires fs.Valid() && ValidInode(inode) && k < Capacity(fs) && At(fs, inode, cur, k)
    ensures InBounds(fs, cur, k) <==> k != Capacity(fs) - 1
  {
    hide InnerBase, Row, Col;
    InnerBases(fs, 0, fs.AddrPerBlock());
    if k >= IND_BLOCK + fs.AddrPerBlock() {
      Coordinates(fs, k);
      DoubleAt(fs, inode, cur, k, Row(fs, k), Col(fs, k));
    }
  }

  // ----- single steps -----

  /** Entries 1.. of an inner block come from the buffer, whatever `dind` says. */
  lemma InnerStep(fs: Fs, inode: seq<Byte>, nBlock: nat, cur: Cursor, k: nat, o: nat, j: nat, dv: nat)
    requires fs.Valid() && ValidInode(inode) && o < fs.AddrPerBlock() && 0 < j < fs.AddrPerBlock()
    requires k == InnerBase(fs, o) + j
    requires dv < fs.AddrPerBlock() && Inner(fs, inode, cur, o, j, dv)
    requires nBlock < TWO_32 && (j + 1 != nBlock || j + 1 == fs.AddrPerBlock())
    ensures k < Capacity(fs) && InBounds(fs, cur, k)
    ensures Step(fs, inode, nBlock, cur, k).1 == Chase(fs, inode, k)
    ensures k != Capacity(fs) - 1 && k != U32(nBlock - 1) ==>
              var next := Step(fs, inode, nBlock, cur, k).0;
              if j + 1 < fs.AddrPerBlock() then
                Inner(fs, inode, next, o, j + 1, if j + 1 == fs.AddrPerBlock() - 1 then dv + 1 else dv)
              else next == Cursor(None, 0, cur.dbuf, dv)
  {
    hide InnerBase, Row, Col;
    DoubleAt(fs, inode, cur, k, o, j);
  }

  /** Entry 0 of an inner block comes from the block that `dind` names. */
  lemma FirstOfInnerStep(fs: Fs, inode: seq<Byte>, nBlock: nat, cur: Cursor, k: nat, o: nat, dv: nat)
    requires fs.Valid() && ValidInode(inode) && o < fs.AddrPerBlock() && dv < fs.AddrPerBlock()
    requires k == InnerBase(fs, o) && nBlock < TWO_32 && nBlock != 1
    requires cur == Cursor(None, 0, Some(fs.Block(IBlock(inode, DIND_BLOCK))), dv)
    ensures k < Capacity(fs) && InBounds(fs, cur, k)
    ensures Step(fs, inode, nBlock, cur, k).1 == DoublePtr(fs, inode, dv, 0)
    ensures Chase(fs, inode, k) == DoublePtr(fs, inode, o, 0)
    ensures dv == o && k != U32(nBlock - 1) ==> Inner(fs, inode, Step(fs, inode, nBlock, cur, k).0, o, 1, dv)
  {
    hide InnerBase, Row, Col;
    DoubleAt(fs, inode, cur, k, o, 0);
    assert Step(fs, inode, nBlock, cur, k) == BufferedStep(fs, nBlock, cur, k);
  }

  /** The request that loads the double-indirect block. */
  lemma VeryFirstDoubleStep(fs: Fs, inode: seq<Byte>, nBlock: nat)
    requires fs.Valid() && ValidInode(inode) && nBlock < TWO_32 && nBlock != 1
    ensures var k := IND_BLOCK + fs.AddrPerBlock();
            && k < Capacity(fs)
            && Step(fs, inode, nBlock, START, k).1 == Chase(fs, inode, k)
            && (k != U32(nBlock - 1) ==> Inner(fs, inode, Step(fs, inode, nBlock, START, k).0, 0, 1, 0))
  {
  }

  /** Up to the end of the single-indirect block: always the right answer, and in step afterwards
      unless the index inside the block has reached nBlock. */
  lemma SingleStepRefines(fs: Fs, inode: seq<Byte>, nBlock: nat, cur: Cursor, k: nat)
    requires fs.Valid() && ValidInode(inode) && k < IND_BLOCK + fs.AddrPerBlock() && k < Capacity(fs)
    requires At(fs, inode, cur, k) && nBlock < TWO_32
    ensures k + 1 < Capacity(fs) && InBounds(fs, cur, k)
    ensures Step(fs, inode, nBlock, cur, k).1 == Chase(fs, inode, k)
    ensures k < IND_BLOCK || k + 1 - IND_BLOCK != nBlock || nBlock >= fs.AddrPerBlock() ==>
              At(fs, inode, Step(fs, inode, nBlock, cur, k).0, k + 1)
    ensures k >= IND_BLOCK && k + 1 - IND_BLOCK == nBlock ==> Step(fs, inode, nBlock, cur, k).0 == START
  {
  }

  /** In the double-indirect range: the right answer, and in step afterwards unless block nBlock - 1
      made the cursor drop the double-indirect block. */
  lemma DoubleStepRefines(fs: Fs, inode: seq<Byte>, nBlock: nat, cur: Cursor, k: nat)
    requires fs.Valid() && ValidInode(inode) && IND_BLOCK + fs.AddrPerBlock() <= k < Capacity(fs) - 1
    requires At(fs, inode, cur, k) && nBlock < TWO_32 && (nBlock == 0 || nBlock >= fs.AddrPerBlock())
    ensures InBounds(fs, cur, k)
    ensures Step(fs, inode, nBlock, cur, k).1 == Chase(fs, inode, k)
    ensures k != U32(nBlock - 1) ==> At(fs, inode, Step(fs, inode, nBlock, cur, k).0, k + 1)
  {
    hide InnerBase, Row, Col, BufferedStep, LoadingStep;
    var a := fs.AddrPerBlock();
    Coordinates(fs, k);
    var o, j := Row(fs, k), Col(fs, k);
    DoubleAt(fs, inode, cur, k, o, j);
    if j > 0 {
      InnerStep(fs, inode, nBlock, cur, k, o, j, DindAt(a, o, j));
    } else if o > 0 {
      FirstOfInnerStep(fs, inode, nBlock, cur, k, o, o);
    } else {
      InnerBases(fs, 0, 0);
      VeryFirstDoubleStep(fs, inode, nBlock);
    }
    var next := Step(fs, inode, nBlock, cur, k).0;
    if j + 1 < a {
      DoubleAt(fs, inode, next, k + 1, o, j + 1);
    } else {
      InnerBases(fs, o, 0);
      DoubleAt(fs, inode, next, k + 1, o + 1, 0);
    }
  }

  // ----- whole runs -----

  /** Requests k, k + 1, ..., n - 1 are answered in bounds and as the pointer chase answers them. */
  predicate Answers(fs: Fs, inode: seq<Byte>, nBlock: nat, cur: Cursor, k: nat, n: nat)
    requires fs.Valid() && ValidInode(inode) && k <= n <= Capacity(fs)
    decreases n - k
  {
    k == n ||
    (InBounds(fs, cur, k) && Step(fs, inode, nBlock, cur, k).1 == Chase(fs, inode, k) &&
     Answers(fs, inode, nBlock, Step(fs, inode, nBlock, cur, k).0, k + 1, n))
  }

  /** The cursor such a run ends with. */
  function After(fs: Fs, inode: seq<Byte>, nBlock: nat, cur: Cursor, k: nat, n: nat): Cursor
    requires fs.Valid() && ValidInode(inode) && k <= n <= Capacity(fs) && Answers(fs, inode, nBlock, cur, k, n)
    decreases n - k
  {
    if k == n then cur else After(fs, inode, nBlock, Step(fs, inode, nBlock, cur, k).0, k + 1, n)
  }

  lemma {:induction false} RunsCompose(fs: Fs, inode: seq<Byte>, nBlock: nat, cur: Cursor, k: nat, mid: nat, n: nat)
    requires fs.Valid() && ValidInode(inode) && k <= mid <= n <= Capacity(fs)
    requires Answers(fs, inode, nBlock, cur, k, mid)
    ensures Answers(fs, inode, nBlock, cur, k, n) <==>
            Answers(fs, inode, nBlock, After(fs, inode, nBlock, cur, k, mid), mid, n)
    ensures Answers(fs, inode, nBlock, cur, k, n) ==>
            After(fs, inode, nBlock, cur, k, n) ==
            After(fs, inode, nBlock, After(fs, inode, nBlock, cur, k, mid), mid, n)
    decreases mid - k
  {
    hide InnerBase, Step, Chase;
    if k < mid {
      RunsCompose(fs, inode, nBlock, Step(fs, inode, nBlock, cur, k).0, k + 1, mid, n);
    }
  }

  lemma {:induction false} ShorterRun(fs: Fs, inode: seq<Byte>, nBlock: nat, cur: Cursor, k: nat, n: nat, m: nat)
    requires fs.Valid() && ValidInode(inode) && k <= n <= m <= Capacity(fs)
    requires Answers(fs, inode, nBlock, cur, k, m)
    ensures Answers(fs, inode, nBlock, cur, k, n)
    decreases n - k
  {
    hide InnerBase, Step, Chase;
    if k < n {
      ShorterRun(fs, inode, nBlock, Step(fs, inode, nBlock, cur, k).0, k + 1, n, m);
    }
  }

  /** No pointer block is dropped early while blocks k .. n - 1 are requested. */
  predicate Quiet(fs: Fs, nBlock: nat, k: nat, n: nat) {
    && nBlock < TWO_32
    && (0 < nBlock < fs.AddrPerBlock() ==> n < IND_BLOCK + nBlock)
    && (IND_BLOCK + fs.AddrPerBlock() < nBlock ==> n < nBlock || nBlock <= k)
  }

  /** A quiet run that starts in step is answered like the pointer chase and ends in step. */
  lemma {:induction false} QuietRun(fs: Fs, inode: seq<Byte>, nBlock: nat, cur: Cursor, k: nat, n: nat)
    requires fs.Valid() && ValidInode(inode) && k <= n < Capacity(fs)
    requires At(fs, inode, cur, k) && Quiet(fs, nBlock, k, n)
    ensures Answers(fs, inode, nBlock, cur, k, n)
    ensures At(fs, inode, After(fs, inode, nBlock, cur, k, n), n)
    decreases n - k
  {
    hide InnerBase, Step, Chase, At;
    CapacityFits(fs);
    if k < n {
      if k < IND_BLOCK + fs.AddrPerBlock() {
        SingleStepRefines(fs, inode, nBlock, cur, k);
      } else {
        DoubleStepRefines(fs, inode, nBlock, cur, k);
      }
      QuietRun(fs, inode, nBlock, Step(fs, inode, nBlock, cur, k).0, k + 1, n);
    }
  }

  // ----- a file's requests, right or wrong -----

  /** Request k needs the double-indirect block and cannot have it: `lost` holds the requests at which reading
      that block fails. The cursor stays as it is then, and the caller goes on with the address of the
      request before. */
  predicate Stalls(fs: Fs, lost: set<nat>, cur: Cursor, k: nat) {
    k >= IND_BLOCK + fs.AddrPerBlock() && cur.dbuf.None? && k in lost
  }

  /** The cursor after requests 0 .. n - 1, if all of them stay in bounds. */
  function RunTo(fs: Fs, inode: seq<Byte>, nBlock: nat, lost: set<nat>, n: nat): Option<Cursor>
    requires fs.Valid() && ValidInode(inode) && n <= Capacity(fs)
  {
    if n == 0 then Some(START)
    else
      var cur := RunTo(fs, inode, nBlock, lost, n - 1);
      if cur.None? || !InBounds(fs, cur.value, n - 1) then None
      else if Stalls(fs, lost, cur.value, n - 1) then cur
      else Some(Step(fs, inode, nBlock, cur.value, n - 1).0)
  }

  /** Request k is made of a cursor that is in bounds for it. */
  predicate Served(fs: Fs, inode: seq<Byte>, nBlock: nat, lost: set<nat>, k: nat)
    requires fs.Valid() && ValidInode(inode)
  {
    k < Capacity(fs) && RunTo(fs, inode, nBlock, lost, k).Some? &&
    InBounds(fs, RunTo(fs, inode, nBlock, lost, k).value, k)
  }

  /** The block it makes the caller read. */
  function Answer(fs: Fs, inode: seq<Byte>, nBlock: nat, lost: set<nat>, k: nat): nat
    requires fs.Valid() && ValidInode(inode) && Served(fs, inode, nBlock, lost, k)
    decreases k
  {
    var cur := RunTo(fs, inode, nBlock, lost, k).value;
    if Stalls(fs, lost, cur, k) then Answer(fs, inode, nBlock, lost, k - 1) else Step(fs, inode, nBlock, cur, k).1
  }

  /** Requests 0 .. n - 1 are all answered like the pointer chase. */
  predicate AllRight(fs: Fs, inode: seq<Byte>, nBlock: nat, lost: set<nat>, n: nat)
    requires fs.Valid() && ValidInode(inode) && n <= Capacity(fs)
  {
    forall k :: 0 <= k < n ==>
      Served(fs, inode, nBlock, lost, k) && Answer(fs, inode, nBlock, lost, k) == Chase(fs, inode, k)
  }

  /** As long as no read fails, a run is right exactly if every single answer is. */
  lemma {:induction false} AnswersOneByOne(fs: Fs, inode: seq<Byte>, nBlock: nat, n: nat)
    requires fs.Valid() && ValidInode(inode) && n <= Capacity(fs)
    ensures Answers(fs, inode, nBlock, START, 0, n) <==> AllRight(fs, inode, nBlock, {}, n)
    ensures Answers(fs, inode, nBlock, START, 0, n) ==>
            RunTo(fs, inode, nBlock, {}, n) == Some(After(fs, inode, nBlock, START, 0, n))
  {
    hide InnerBase, Step, Chase, InBounds;
    if n > 0 {
      AnswersOneByOne(fs, inode, nBlock, n - 1);
      if Answers(fs, inode, nBlock, START, 0, n) {
        ShorterRun(fs, inode, nBlock, START, 0, n - 1, n);
      }
      if Answers(fs, inode, nBlock, START, 0, n - 1) {
        RunsCompose(fs, inode, nBlock, START, 0, n - 1, n);
        OneRequest(fs, inode, nBlock, After(fs, inode, nBlock, START, 0, n - 1), n - 1);
        assert Answers(fs, inode, nBlock, START, 0, n) <==>
               Served(fs, inode, nBlock, {}, n - 1) &&
               Answer(fs, inode, nBlock, {}, n - 1) == Chase(fs, inode, n - 1);
      }
    }
  }

  lemma OneRequest(fs: Fs, inode: seq<Byte>, nBlock: nat, cur: Cursor, k: nat)
    requires fs.Valid() && ValidInode(inode) && k < Capacity(fs)
    ensures Answers(fs, inode, nBlock, cur, k, k + 1) <==>
            InBounds(fs, cur, k) && Step(fs, inode, nBlock, cur, k).1 == Chase(fs, inode, k)
    ensures Answers(fs, inode, nBlock, cur, k, k + 1) ==>
            After(fs, inode, nBlock, cur, k, k + 1) == Step(fs, inode, nBlock, cur, k).0
  {
  }

  /** How far the indices can have got in front of request k, whatever block count the cursor believes in. */
  predicate Paced(fs: Fs, nBlock: nat, cur: Cursor, k: nat) {
    var a := fs.AddrPerBlock();
    && Buffers(fs, cur) && cur.ind < a && (cur.buffer.None? ==> cur.ind == 0)
    && (k <= IND_BLOCK + a ==> cur.dbuf.None? && cur.dind == 0)
    && (if 0 < nBlock < a then cur.ind < nBlock && cur.dind == 0
        else if k <= IND_BLOCK + a then cur.ind == if IND_BLOCK < k < IND_BLOCK + a then k - IND_BLOCK else 0
        else InnerBase(fs, cur.dind) + cur.ind <= k + if cur.ind == a - 1 then a else 0)
  }

  lemma PacedInBounds(fs: Fs, nBlock: nat, cur: Cursor, k: nat)
    requires fs.Valid() && k < Capacity(fs) - 1 && Paced(fs, nBlock, cur, k)
    ensures InBounds(fs, cur, k)
  {
  }

  lemma PacedStep(fs: Fs, inode: seq<Byte>, nBlock: nat, cur: Cursor, k: nat)
    requires fs.Valid() && ValidInode(inode) && nBlock < TWO_32 && k < Capacity(fs) - 1
    requires Paced(fs, nBlock, cur, k) && InBounds(fs, cur, k)
    ensures Paced(fs, nBlock, Step(fs, inode, nBlock, cur, k).0, k + 1)
  {
    hide InnerBase, Chase;
    InnerBases(fs, cur.dind, 0);
    InnerBases(fs, 0, cur.dind);
    InnerBases(fs, 0, cur.dind + 1);
  }

  lemma PacedStall(fs: Fs, nBlock: nat, lost: set<nat>, cur: Cursor, k: nat)
    requires fs.Valid() && Paced(fs, nBlock, cur, k) && Stalls(fs, lost, cur, k)
    ensures Paced(fs, nBlock, cur, k + 1)
  {
  }

  /** Whatever block count the cursor believes in and whichever reads fail, it stays in bounds up to the last but
      one slot. */
  lemma {:induction false} AlwaysInBounds(fs: Fs, inode: seq<Byte>, nBlock: nat, lost: set<nat>, k: nat)
    requires fs.Valid() && ValidInode(inode) && nBlock < TWO_32 && k < Capacity(fs) - 1
    ensures Served(fs, inode, nBlock, lost, k) && Paced(fs, nBlock, RunTo(fs, inode, nBlock, lost, k).value, k)
  {
    hide InnerBase, Step, InBounds, Paced, Stalls;
    if k > 0 {
      AlwaysInBounds(fs, inode, nBlock, lost, k - 1);
      var cur := RunTo(fs, inode, nBlock, lost, k - 1).value;
      if Stalls(fs, lost, cur, k - 1) {
        PacedStall(fs, nBlock, lost, cur, k - 1);
      } else {
        PacedStep(fs, inode, nBlock, cur, k - 1);
      }
    } else {
      StartPaced(fs, nBlock);
    }
    PacedInBounds(fs, nBlock, RunTo(fs, inode, nBlock, lost, k).value, k);
  }

  lemma StartPaced(fs: Fs, nBlock: nat)
    requires fs.Valid()
    ensures Paced(fs, nBlock, START, 0)
  {
  }

  // ----- no run leaves the file -----

  /** Entry `ind` of this pointer block is the pointer of some block of the file up to k. */
  predicate Addresses(fs: Fs, inode: seq<Byte>, buffer: seq<Byte>, ind: nat, k: nat)
    requires fs.Valid() && ValidInode(inode)
  {
    || (buffer == fs.Block(IBlock(inode, IND_BLOCK)) && IND_BLOCK + ind <= k)
    || exists o :: 0 <= o < fs.AddrPerBlock() && buffer == fs.Block(Ptr(fs, IBlock(inode, DIND_BLOCK), o)) &&
                   InnerBase(fs, o) + ind <= k
  }

  /** Whatever is buffered in front of request k belongs to the file. */
  predicate Sourced(fs: Fs, inode: seq<Byte>, cur: Cursor, k: nat)
    requires fs.Valid() && ValidInode(inode)
  {
    && (cur.dbuf.Some? ==> cur.dbuf.value == fs.Block(IBlock(inode, DIND_BLOCK)))
    && (cur.buffer.Some? ==> Addresses(fs, inode, cur.buffer.value, cur.ind, k))
  }

  /** Such an entry is the pointer chase of that block. */
  lemma EntryIsChase(fs: Fs, inode: seq<Byte>, buffer: seq<Byte>, ind: nat, k: nat) returns (k': nat)
    requires fs.Valid() && ValidInode(inode) && ind < fs.AddrPerBlock() && k < Capacity(fs)
    requires |buffer| == fs.blockSize && Addresses(fs, inode, buffer, ind, k)
    ensures k' <= k && Word(fs, buffer, ind) == Chase(fs, inode, k')
    ensures Addresses(fs, inode, buffer, ind + 1, k + 1)
  {
    hide InnerBase, Row, Col;
    InnerBases(fs, 0, fs.AddrPerBlock());
    if buffer == fs.Block(IBlock(inode, IND_BLOCK)) && IND_BLOCK + ind <= k {
      k' := IND_BLOCK + ind;
    } else {
      var o :| 0 <= o < fs.AddrPerBlock() && buffer == fs.Block(Ptr(fs, IBlock(inode, DIND_BLOCK), o)) &&
               InnerBase(fs, o) + ind <= k;
      k' := InnerBase(fs, o) + ind;
      DoubleAt(fs, inode, START, k', o, ind);
    }
  }

  /** One call of `indirect_blk_nr` for a pointer block of the file. */
  lemma IndirectWithinFile(fs: Fs, inode: seq<Byte>, nBlock: nat, cur: Cursor, nr: nat, k: nat) returns (k': nat)
    requires fs.Valid() && ValidInode(inode) && k < Capacity(fs) && Buffers(fs, cur) && cur.ind < fs.AddrPerBlock()
    requires Sourced(fs, inode, cur, k)
    requires cur.buffer.None? ==> cur.ind == 0 && Addresses(fs, inode, fs.Block(nr), 0, k)
    ensures k' <= k && IndirectStep(fs, nBlock, cur, nr).1 == Chase(fs, inode, k')
    ensures Sourced(fs, inode, IndirectStep(fs, nBlock, cur, nr).0, k + 1)
  {
    hide InnerBase, Row, Col, Addresses, Chase;
    k' := EntryIsChase(fs, inode, if cur.buffer.None? then fs.Block(nr) else cur.buffer.value, cur.ind, k);
  }

  lemma StepWithinFile(fs: Fs, inode: seq<Byte>, nBlock: nat, cur: Cursor, k: nat) returns (k': nat)
    requires fs.Valid() && ValidInode(inode) && nBlock < TWO_32 && k < Capacity(fs) - 1
    requires Paced(fs, nBlock, cur, k) && InBounds(fs, cur, k) && Sourced(fs, inode, cur, k)
    ensures k' <= k && Step(fs, inode, nBlock, cur, k).1 == Chase(fs, inode, k')
    ensures Sourced(fs, inode, Step(fs, inode, nBlock, cur, k).0, k + 1)
  {
    hide InnerBase, Row, Col, IndirectStep;
    InnerBases(fs, 0, 0);
    if k < IND_BLOCK {
      k' := k;
    } else {
      var nr := if k < IND_BLOCK + fs.AddrPerBlock() then IBlock(inode, IND_BLOCK)
                else Ptr(fs, IBlock(inode, DIND_BLOCK), if cur.dbuf.None? then 0 else cur.dind);
      var loaded := if k >= IND_BLOCK + fs.AddrPerBlock() && cur.dbuf.None?
                    then cur.(dbuf := Some(fs.Block(IBlock(inode, DIND_BLOCK)))) else cur;
      k' := IndirectWithinFile(fs, inode, nBlock, loaded, nr, k);
    }
  }

  lemma {:induction false} RunIsSourced(fs: Fs, inode: seq<Byte>, nBlock: nat, lost: set<nat>, k: nat)
    requires fs.Valid() && ValidInode(inode) && nBlock < TWO_32 && k < Capacity(fs) - 1
    ensures Served(fs, inode, nBlock, lost, k) && Sourced(fs, inode, RunTo(fs, inode, nBlock, lost, k).value, k)
  {
    hide InnerBase, Step, InBounds, Paced, Sourced, Chase;
    AlwaysInBounds(fs, inode, nBlock, lost, k);
    if k > 0 {
      RunIsSourced(fs, inode, nBlock, lost, k - 1);
      AlwaysInBounds(fs, inode, nBlock, lost, k - 1);
      var cur := RunTo(fs, inode, nBlock, lost, k - 1).value;
      if Stalls(fs, lost, cur, k - 1) {
        StillSourced(fs, inode, cur, k - 1);
      } else {
        var _ := StepWithinFile(fs, inode, nBlock, cur, k - 1);
      }
    } else {
      StartSourced(fs, inode);
    }
  }

  lemma StartSourced(fs: Fs, inode: seq<Byte>)
    requires fs.Valid() && ValidInode(inode)
    ensures Sourced(fs, inode, START, 0)
  {
  }

  lemma StillSourced(fs: Fs, inode: seq<Byte>, cur: Cursor, k: nat)
    requires fs.Valid() && ValidInode(inode) && Sourced(fs, inode, cur, k)
    ensures Sourced(fs, inode, cur, k + 1)
  {
  }

  /** Whatever block count the cursor believes in and whichever reads fail, every answer is the right one for
      this request or an earlier one: no run leaves the file. */
  lemma {:induction false} NeverLeavesFile(fs: Fs, inode: seq<Byte>, nBlock: nat, lost: set<nat>, k: nat)
    returns (k': nat)
    requires fs.Valid() && ValidInode(inode) && nBlock < TWO_32 && k < Capacity(fs) - 1
    ensures Served(fs, inode, nBlock, lost, k)
    ensures k' <= k && Answer(fs, inode, nBlock, lost, k) == Chase(fs, inode, k')
  {
    hide InnerBase, Step, InBounds, Paced, Sourced, Chase;
    AlwaysInBounds(fs, inode, nBlock, lost, k);
    RunIsSourced(fs, inode, nBlock, lost, k);
    if Stalls(fs, lost, RunTo(fs, inode, nBlock, lost, k).value, k) {
      k' := NeverLeavesFile(fs, inode, nBlock, lost, k - 1);
    } else {
      k' := StepWithinFile(fs, inode, nBlock, RunTo(fs, inode, nBlock, lost, k).value, k);
    }
  }

  // ----- what a wrong block count does -----

  /** The first request an in-order run answers wrongly when the cursor believes in nBlock blocks. */
  function FirstWrong(fs: Fs, nBlock: nat): Option<nat>
    requires fs.Valid()
  {
    var a := fs.AddrPerBlock();
    if nBlock == 0 || a <= nBlock <= IND_BLOCK + a then None
    else if nBlock < a then Some(IND_BLOCK + nBlock)
    else if Col(fs, nBlock) == 0 then Some(nBlock)
    else if Row(fs, nBlock) == 0 && Col(fs, nBlock) < a - 2 then None
    else Some(InnerBase(fs, Row(fs, nBlock) + 1))
  }

  /** No block is mapped twice below n. */
  predicate Distinct(fs: Fs, inode: seq<Byte>, n: nat)
    requires fs.Valid() && ValidInode(inode) && n <= Capacity(fs)
  {
    forall x, y :: 0 <= x < y < n ==> Chase(fs, inode, x) != Chase(fs, inode, y)
  }

  /** A count below A makes the cursor restart the single-indirect block at index nBlock. */
  lemma SmallCountExact(fs: Fs, inode: seq<Byte>, nBlock: nat, n: nat)
    requires fs.Valid() && ValidInode(inode) && n < Capacity(fs) && Distinct(fs, inode, n)
    requires 0 < nBlock < fs.AddrPerBlock()
    ensures Answers(fs, inode, nBlock, START, 0, n) <==> n <= IND_BLOCK + nBlock
  {
    hide InnerBase;
    var w := IND_BLOCK + nBlock;
    InnerBases(fs, 0, fs.AddrPerBlock());
    QuietRun(fs, inode, nBlock, START, 0, w - 1);
    SingleStepRefines(fs, inode, nBlock, After(fs, inode, nBlock, START, 0, w - 1), w - 1);
    RunsCompose(fs, inode, nBlock, START, 0, w - 1, w);
    if n <= w {
      ShorterRun(fs, inode, nBlock, START, 0, n, w);
    } else {
      RunsCompose(fs, inode, nBlock, START, 0, w, n);
      assert Step(fs, inode, nBlock, START, w).1 == Chase(fs, inode, IND_BLOCK);
    }
  }

  /** The cursor that dropped the double-indirect block in front of entry j of inner block o. */
  predicate Dropped(fs: Fs, inode: seq<Byte>, cur: Cursor, o: nat, j: nat)
    requires fs.Valid() && ValidInode(inode) && o < fs.AddrPerBlock() && j < fs.AddrPerBlock()
  {
    cur.dbuf.None? && Inner(fs, inode, cur.(dbuf := Some(fs.Block(IBlock(inode, DIND_BLOCK)))), o, j, 0)
  }

  /** After request nBlock - 1 the double-indirect block is gone and `dind` is back at 0, while the
      inner block is still where it should be. */
  lemma DropStep(fs: Fs, inode: seq<Byte>, nBlock: nat, cur: Cursor, o: nat, j: nat)
    requires fs.Valid() && ValidInode(inode) && IND_BLOCK + fs.AddrPerBlock() < nBlock < Capacity(fs)
    requires nBlock < TWO_32 && At(fs, inode, cur, nBlock - 1)
    requires o < fs.AddrPerBlock() && j < fs.AddrPerBlock() && nBlock == InnerBase(fs, o) + j
    ensures InBounds(fs, cur, nBlock - 1)
    ensures Step(fs, inode, nBlock, cur, nBlock - 1).1 == Chase(fs, inode, nBlock - 1)
    ensures Dropped(fs, inode, Step(fs, inode, nBlock, cur, nBlock - 1).0, o, j)
  {
    hide InnerBase, Row, Col, At, Chase;
    CapacityFits(fs);
    DoubleStepRefines(fs, inode, nBlock, cur, nBlock - 1);
    DoubleStepRefines(fs, inode, 0, cur, nBlock - 1);
    InnerBases(fs, 0, o);
    DoubleAt(fs, inode, Step(fs, inode, 0, cur, nBlock - 1).0, nBlock, o, j);
  }

  /** The run up to and including the request that drops the double-indirect block. */
  lemma RunToDrop(fs: Fs, inode: seq<Byte>, nBlock: nat, o: nat, j: nat)
    requires fs.Valid() && ValidInode(inode) && o < fs.AddrPerBlock() && j < fs.AddrPerBlock()
    requires nBlock == InnerBase(fs, o) + j && IND_BLOCK + fs.AddrPerBlock() < nBlock
    requires nBlock < Capacity(fs) && nBlock < TWO_32
    ensures Answers(fs, inode, nBlock, START, 0, nBlock)
    ensures Dropped(fs, inode, After(fs, inode, nBlock, START, 0, nBlock), o, j)
  {
    hide InnerBase, Row, Col, Step, Chase, Dropped;
    QuietRun(fs, inode, nBlock, START, 0, nBlock - 1);
    DropStep(fs, inode, nBlock, After(fs, inode, nBlock, START, 0, nBlock - 1), o, j);
    RunsCompose(fs, inode, nBlock, START, 0, nBlock - 1, nBlock);
  }

  /** The request after such a drop reloads the double-indirect block; past entry 0 that is harmless. */
  lemma ReloadStep(fs: Fs, inode: seq<Byte>, nBlock: nat, cur: Cursor, o: nat, j: nat)
    requires fs.Valid() && ValidInode(inode) && o < fs.AddrPerBlock() && j < fs.AddrPerBlock()
    requires nBlock == InnerBase(fs, o) + j && fs.AddrPerBlock() < nBlock < TWO_32 && Dropped(fs, inode, cur, o, j)
    ensures nBlock < Capacity(fs) && InBounds(fs, cur, nBlock)
    ensures Chase(fs, inode, nBlock) == DoublePtr(fs, inode, o, j)
    ensures j == 0 ==> Step(fs, inode, nBlock, cur, nBlock).1 == DoublePtr(fs, inode, 0, 0)
    ensures j > 0 ==> Step(fs, inode, nBlock, cur, nBlock).1 == DoublePtr(fs, inode, o, j)
    ensures j > 0 ==> var next := Step(fs, inode, nBlock, cur, nBlock).0;
                      if j + 1 < fs.AddrPerBlock() then Inner(fs, inode, next, o, j + 1, 0)
                      else next == Cursor(None, 0, Some(fs.Block(IBlock(inode, DIND_BLOCK))), 0)
  {
    hide InnerBase, Row, Col;
    DoubleAt(fs, inode, cur, nBlock, o, j);
    assert Step(fs, inode, nBlock, cur, nBlock) == LoadingStep(fs, nBlock, cur, nBlock, IBlock(inode, DIND_BLOCK));
  }

  /** With `dind` off, the rest of the current inner block is still answered correctly. */
  lemma {:induction false} DriftRun(fs: Fs, inode: seq<Byte>, nBlock: nat, cur: Cursor, k: nat, o: nat, j: nat,
          dv: nat, n: nat)
    requires fs.Valid() && ValidInode(inode) && o < fs.AddrPerBlock() && 0 < j <= fs.AddrPerBlock() && dv <= 1
    requires k == InnerBase(fs, o) + j
    requires if j < fs.AddrPerBlock() then Inner(fs, inode, cur, o, j, dv)
             else cur == Cursor(None, 0, Some(fs.Block(IBlock(inode, DIND_BLOCK))), dv)
    requires fs.AddrPerBlock() < nBlock <= k && nBlock < TWO_32
    requires j < fs.AddrPerBlock() - 1 ==> dv == 0
    requires k <= n <= InnerBase(fs, o) + fs.AddrPerBlock() && n < Capacity(fs)
    ensures Answers(fs, inode, nBlock, cur, k, n)
    ensures n == InnerBase(fs, o) + fs.AddrPerBlock() ==>
              After(fs, inode, nBlock, cur, k, n) ==
              Cursor(None, 0, Some(fs.Block(IBlock(inode, DIND_BLOCK))), if j < fs.AddrPerBlock() - 1 then 1 else dv)
    decreases n - k
  {
    hide InnerBase, Row, Col, Step, Chase;
    if k < n {
      InnerStep(fs, inode, nBlock, cur, k, o, j, dv);
      DriftRun(fs, inode, nBlock, Step(fs, inode, nBlock, cur, k).0, k + 1, o, j + 1,
               if j + 1 == fs.AddrPerBlock() - 1 then dv + 1 else dv, n);
    }
  }

  /** With `dind` behind, the next inner block is loaded from the wrong entry. */
  lemma WrongInner(fs: Fs, inode: seq<Byte>, nBlock: nat, cur: Cursor, o: nat, dv: nat, n: nat)
    requires fs.Valid() && ValidInode(inode) && InnerBase(fs, o + 1) < n < Capacity(fs) && Distinct(fs, inode, n)
    requires dv <= o && nBlock < TWO_32 && nBlock != 1
    requires cur == Cursor(None, 0, Some(fs.Block(IBlock(inode, DIND_BLOCK))), dv)
    ensures !Answers(fs, inode, nBlock, cur, InnerBase(fs, o + 1), n)
  {
    hide InnerBase, Row, Col;
    var w, x := InnerBase(fs, o + 1), InnerBase(fs, dv);
    InnerBases(fs, fs.AddrPerBlock(), o + 1);
    InnerBases(fs, dv, o + 1);
    DoubleAt(fs, inode, cur, x, dv, 0);
    FirstOfInnerStep(fs, inode, nBlock, cur, w, o + 1, dv);
    assert Chase(fs, inode, x) != Chase(fs, inode, w);
  }

  lemma AfterReload(fs: Fs, inode: seq<Byte>, nBlock: nat, cur: Cursor, o: nat, j: nat, n: nat)
    requires fs.Valid() && ValidInode(inode) && nBlock < n < Capacity(fs) && Distinct(fs, inode, n)
    requires o < fs.AddrPerBlock() && 0 < j < fs.AddrPerBlock()
    requires nBlock == InnerBase(fs, o) + j && IND_BLOCK + fs.AddrPerBlock() < nBlock < TWO_32
    requires if j + 1 < fs.AddrPerBlock() then Inner(fs, inode, cur, o, j + 1, 0)
             else cur == Cursor(None, 0, Some(fs.Block(IBlock(inode, DIND_BLOCK))), 0)
    ensures Answers(fs, inode, nBlock, cur, nBlock + 1, n) <==>
            (o == 0 && j < fs.AddrPerBlock() - 2) || n <= InnerBase(fs, o + 1)
  {
    hide InnerBase, Row, Col, Step, Chase, Distinct;
    var a := fs.AddrPerBlock();
    InnerBases(fs, o, 0);
    if o == 0 && j < a - 2 {
      DoubleAt(fs, inode, cur, nBlock + 1, 0, j + 1);
      QuietRun(fs, inode, nBlock, cur, nBlock + 1, n);
    } else {
      var w := InnerBase(fs, o + 1);
      var end := if n <= w then n else w;
      DriftRun(fs, inode, nBlock, cur, nBlock + 1, o, j + 1, 0, end);
      if w < n {
        RunsCompose(fs, inode, nBlock, cur, nBlock + 1, w, n);
        WrongInner(fs, inode, nBlock, After(fs, inode, nBlock, cur, nBlock + 1, w), o, if j < a - 2 then 1 else 0, n);
      }
    }
  }

  /** A count inside the double-indirect range resets the outer index there. */
  lemma LargeCountExact(fs: Fs, inode: seq<Byte>, nBlock: nat, o: nat, j: nat, n: nat)
    requires fs.Valid() && ValidInode(inode) && nBlock < n < Capacity(fs) && Distinct(fs, inode, n)
    requires o < fs.AddrPerBlock() && j < fs.AddrPerBlock()
    requires nBlock == InnerBase(fs, o) + j && IND_BLOCK + fs.AddrPerBlock() < nBlock < TWO_32
    ensures Answers(fs, inode, nBlock, START, 0, n) <==>
            j > 0 && ((o == 0 && j < fs.AddrPerBlock() - 2) || n <= InnerBase(fs, o + 1))
  {
    hide InnerBase, Row, Col, Step, Dropped;
    RunToDrop(fs, inode, nBlock, o, j);
    var dropped := After(fs, inode, nBlock, START, 0, nBlock);
    RunsCompose(fs, inode, nBlock, START, 0, nBlock, n);
    ReloadStep(fs, inode, nBlock, dropped, o, j);
    if j == 0 {
      InnerBases(fs, 0, o);
      DoubleAt(fs, inode, START, InnerBase(fs, 0), 0, 0);
      assert Chase(fs, inode, InnerBase(fs, 0)) != Chase(fs, inode, nBlock);
    } else {
      AfterReload(fs, inode, nBlock, Step(fs, inode, nBlock, dropped, nBlock).0, o, j, n);
    }
  }

  /** With the true block count no request of the file is answered wrongly. */
  lemma TrueCountIsRight(fs: Fs, inode: seq<Byte>, nBlock: nat)
    requires fs.Valid() && ValidInode(inode) && nBlock < Capacity(fs) && nBlock < TWO_32
    ensures Answers(fs, inode, nBlock, START, 0, nBlock)
  {
    hide InnerBase, Row, Col, Answers, Chase, Step;
    if nBlock <= IND_BLOCK + fs.AddrPerBlock() {
      QuietRun(fs, inode, nBlock, START, 0, nBlock);
    } else {
      Coordinates(fs, nBlock);
      RunToDrop(fs, inode, nBlock, Row(fs, nBlock), Col(fs, nBlock));
    }
  }

  lemma FirstWrongAfter(fs: Fs, nBlock: nat)
    requires fs.Valid() && IND_BLOCK + fs.AddrPerBlock() < nBlock
    ensures FirstWrong(fs, nBlock).Some? ==> nBlock <= FirstWrong(fs, nBlock).value
  {
  }

  /** The cursor's contract, both ways: a run over blocks 0 .. n - 1 of a file that maps no block twice
      is answered like the pointer chase exactly when it ends before `FirstWrong`. */
  lemma CursorExact(fs: Fs, inode: seq<Byte>, nBlock: nat, n: nat)
    requires fs.Valid() && ValidInode(inode) && n < Capacity(fs) && nBlock < TWO_32 && Distinct(fs, inode, n)
    ensures Answers(fs, inode, nBlock, START, 0, n) <==>
            (FirstWrong(fs, nBlock).Some? ==> n <= FirstWrong(fs, nBlock).value)
  {
    hide InnerBase, Row, Col, Step, Chase, Answers;
    var a := fs.AddrPerBlock();
    if nBlock == 0 || a <= nBlock <= IND_BLOCK + a {
      QuietRun(fs, inode, nBlock, START, 0, n);
    } else if nBlock < a {
      SmallCountExact(fs, inode, nBlock, n);
    } else if n < nBlock {
      QuietRun(fs, inode, nBlock, START, 0, n);
      FirstWrongAfter(fs, nBlock);
    } else {
      Coordinates(fs, nBlock);
      FirstWrongAfter(fs, nBlock);
      if n == nBlock {
        RunToDrop(fs, inode, nBlock, Row(fs, nBlock), Col(fs, nBlock));
      } else {
        LargeCountExact(fs, inode, nBlock, Row(fs, nBlock), Col(fs, nBlock), n);
      }
    }
  }

  // ----- what failed reads of the double-indirect block do -----

  /** The requests at which a run without failures loads the double-indirect block. */
  predicate LoadsAt(fs: Fs, nBlock: nat, k: nat) {
    k == IND_BLOCK + fs.AddrPerBlock() || (k > IND_BLOCK + fs.AddrPerBlock() && k == nBlock)
  }

  /** Past the first load the double-indirect block is missing exactly in front of request nBlock. */
  lemma DropsExactly(fs: Fs, inode: seq<Byte>, nBlock: nat, cur: Cursor, k: nat)
    requires fs.Valid() && ValidInode(inode) && nBlock < TWO_32
    requires IND_BLOCK + fs.AddrPerBlock() <= k < Capacity(fs) - 1 && InBounds(fs, cur, k)
    ensures Step(fs, inode, nBlock, cur, k).0.dbuf.None? <==> k + 1 == nBlock
  {
    CapacityFits(fs);
  }

  lemma {:induction false} MissingExactly(fs: Fs, inode: seq<Byte>, nBlock: nat, k: nat)
    requires fs.Valid() && ValidInode(inode) && nBlock < TWO_32
    requires IND_BLOCK + fs.AddrPerBlock() <= k < Capacity(fs) - 1
    ensures Served(fs, inode, nBlock, {}, k)
    ensures RunTo(fs, inode, nBlock, {}, k).value.dbuf.None? <==> LoadsAt(fs, nBlock, k)
  {
    hide InnerBase, Step, InBounds;
    AlwaysInBounds(fs, inode, nBlock, {}, k);
    if k > IND_BLOCK + fs.AddrPerBlock() {
      AlwaysInBounds(fs, inode, nBlock, {}, k - 1);
      DropsExactly(fs, inode, nBlock, RunTo(fs, inode, nBlock, {}, k - 1).value, k - 1);
    }
  }

  /** No read that fails is needed by the first n requests. */
  predicate LoadsKept(fs: Fs, nBlock: nat, lost: set<nat>, n: nat) {
    forall k :: k in lost && k < n ==> !LoadsAt(fs, nBlock, k)
  }

  /** Failures that hit no load change nothing. */
  lemma {:induction false} UndisturbedRun(fs: Fs, inode: seq<Byte>, nBlock: nat, lost: set<nat>, k: nat)
    requires fs.Valid() && ValidInode(inode) && nBlock < TWO_32 && k < Capacity(fs) - 1
    requires LoadsKept(fs, nBlock, lost, k)
    ensures RunTo(fs, inode, nBlock, lost, k) == RunTo(fs, inode, nBlock, {}, k)
  {
    hide InnerBase, Step, InBounds;
    if k > 0 {
      UndisturbedRun(fs, inode, nBlock, lost, k - 1);
      AlwaysInBounds(fs, inode, nBlock, {}, k - 1);
      if k - 1 >= IND_BLOCK + fs.AddrPerBlock() {
        MissingExactly(fs, inode, nBlock, k - 1);
      }
    }
  }

  /** One request after a run that no failure has disturbed so far. */
  lemma NextUndisturbed(fs: Fs, inode: seq<Byte>, nBlock: nat, lost: set<nat>, k: nat)
    requires fs.Valid() && ValidInode(inode) && nBlock < TWO_32 && k < Capacity(fs) - 1
    requires LoadsKept(fs, nBlock, lost, k)
    ensures Served(fs, inode, nBlock, lost, k) && Served(fs, inode, nBlock, {}, k)
    ensures if k in lost && LoadsAt(fs, nBlock, k)
            then k > 0 && Served(fs, inode, nBlock, lost, k - 1) &&
                 Answer(fs, inode, nBlock, lost, k) == Answer(fs, inode, nBlock, lost, k - 1)
            else Answer(fs, inode, nBlock, lost, k) == Answer(fs, inode, nBlock, {}, k)
  {
    hide InnerBase, Step, InBounds;
    UndisturbedRun(fs, inode, nBlock, lost, k);
    AlwaysInBounds(fs, inode, nBlock, {}, k);
    AlwaysInBounds(fs, inode, nBlock, lost, k);
    if k >= IND_BLOCK + fs.AddrPerBlock() {
      MissingExactly(fs, inode, nBlock, k);
      AlwaysInBounds(fs, inode, nBlock, lost, k - 1);
    }
  }

  /** Failed reads are never noticed, and over blocks that are all different a run is right despite them
      exactly if it would be right without them and no load hits one of them. */
  lemma {:induction false} LostLoadsExact(fs: Fs, inode: seq<Byte>, nBlock: nat, lost: set<nat>, n: nat)
    requires fs.Valid() && ValidInode(inode) && n < Capacity(fs) && nBlock < TWO_32 && Distinct(fs, inode, n)
    ensures AllRight(fs, inode, nBlock, lost, n) <==>
            AllRight(fs, inode, nBlock, {}, n) && LoadsKept(fs, nBlock, lost, n)
  {
    hide InnerBase, Chase, Served, Answer, LoadsAt;
    if n > 0 {
      LostLoadsExact(fs, inode, nBlock, lost, n - 1);
      if AllRight(fs, inode, nBlock, {}, n - 1) && LoadsKept(fs, nBlock, lost, n - 1) {
        NextUndisturbed(fs, inode, nBlock, lost, n - 1);
        OneMoreRight(fs, inode, nBlock, lost, n);
        OneMoreRight(fs, inode, nBlock, {}, n);
        if n - 1 in lost && LoadsAt(fs, nBlock, n - 1) {
          assert Chase(fs, inode, n - 2) != Chase(fs, inode, n - 1);
        }
      } else {
        assert !AllRight(fs, inode, nBlock, lost, n - 1);
      }
    }
  }

  lemma OneMoreRight(fs: Fs, inode: seq<Byte>, nBlock: nat, lost: set<nat>, n: nat)
    requires fs.Valid() && ValidInode(inode) && 0 < n <= Capacity(fs)
    ensures AllRight(fs, inode, nBlock, lost, n) <==>
            AllRight(fs, inode, nBlock, lost, n - 1) && Served(fs, inode, nBlock, lost, n - 1) &&
            Answer(fs, inode, nBlock, lost, n - 1) == Chase(fs, inode, n - 1)
  {
  }

  /** With the true block count only the very first load matters. */
  lemma LostLoadExact(fs: Fs, inode: seq<Byte>, lost: set<nat>, n: nat)
    requires fs.Valid() && ValidInode(inode) && n < Capacity(fs) && n < TWO_32 && Distinct(fs, inode, n)
    ensures AllRight(fs, inode, n, lost, n) <==>
            n <= IND_BLOCK + fs.AddrPerBlock() || IND_BLOCK + fs.AddrPerBlock() !in lost
  {
    hide InnerBase, Chase, Answers, AllRight, Distinct;
    TrueCountIsRight(fs, inode, n);
    AnswersOneByOne(fs, inode, n, n);
    LostLoadsExact(fs, inode, n, lost, n);
  }

  /** How far a run has fallen behind at request k: by one for every failure in a row from the first load on. */
  function Lag(fs: Fs, lost: set<nat>, k: nat): (d: nat)
    ensures if k < IND_BLOCK + fs.AddrPerBlock() then d == 0 else d <= k + 1 - (IND_BLOCK + fs.AddrPerBlock())
  {
    var first := IND_BLOCK + fs.AddrPerBlock();
    if k < first then 0
    else
      var d := Lag(fs, lost, k - 1);
      if d == k - first && k in lost then d + 1 else d
  }

  /** A request in the double-indirect range does not depend on its own number but for the two drops. */
  lemma StepShift(fs: Fs, inode: seq<Byte>, nBlock: nat, cur: Cursor, p: nat, k: nat)
    requires fs.Valid() && ValidInode(inode) && IND_BLOCK + fs.AddrPerBlock() <= p <= k < Capacity(fs) - 1
    requires InBounds(fs, cur, p)
    ensures InBounds(fs, cur, k) && Step(fs, inode, nBlock, cur, k).1 == Step(fs, inode, nBlock, cur, p).1
    ensures p != U32(nBlock - 1) && k != U32(nBlock - 1) ==>
              Step(fs, inode, nBlock, cur, k).0 == Step(fs, inode, nBlock, cur, p).0
  {
  }

  /** In step the double-indirect block is missing only in front of the first load. */
  lemma MissingWhenAt(fs: Fs, inode: seq<Byte>, cur: Cursor, p: nat)
    requires fs.Valid() && ValidInode(inode) && IND_BLOCK + fs.AddrPerBlock() <= p < Capacity(fs)
    requires At(fs, inode, cur, p)
    ensures cur.dbuf.None? <==> p == IND_BLOCK + fs.AddrPerBlock()
  {
  }

  /** The lagging cursor is in step with an earlier block. */
  lemma {:induction false} LaggingCursor(fs: Fs, inode: seq<Byte>, lost: set<nat>, n: nat, k: nat)
    requires fs.Valid() && ValidInode(inode) && k < n < Capacity(fs) && n < TWO_32
    ensures Served(fs, inode, n, lost, k)
    ensures At(fs, inode, RunTo(fs, inode, n, lost, k).value, if k == 0 then 0 else k - Lag(fs, lost, k - 1))
  {
    hide InnerBase, Step, InBounds, At;
    AlwaysInBounds(fs, inode, n, lost, k);
    if k == 0 {
      StartAt(fs, inode);
    } else {
      LaggingCursor(fs, inode, lost, n, k - 1);
      var cur := RunTo(fs, inode, n, lost, k - 1).value;
      LaggingStep(fs, inode, lost, n, cur, k - 1, if k == 1 then 0 else Lag(fs, lost, k - 2));
    }
  }

  lemma StartAt(fs: Fs, inode: seq<Byte>)
    requires fs.Valid() && ValidInode(inode)
    ensures 0 < Capacity(fs) && At(fs, inode, START, 0)
  {
  }

  lemma LaggingStep(fs: Fs, inode: seq<Byte>, lost: set<nat>, n: nat, cur: Cursor, k: nat, d: nat)
    requires fs.Valid() && ValidInode(inode) && k + 1 < n < Capacity(fs) && n < TWO_32
    requires d == (if k == 0 then 0 else Lag(fs, lost, k - 1)) && At(fs, inode, cur, k - d) && InBounds(fs, cur, k)
    ensures At(fs, inode, if Stalls(fs, lost, cur, k) then cur else Step(fs, inode, n, cur, k).0,
               k + 1 - Lag(fs, lost, k))
  {
    hide InnerBase, Step, InBounds, At;
    if k < IND_BLOCK + fs.AddrPerBlock() {
      SingleStepRefines(fs, inode, n, cur, k);
    } else {
      MissingWhenAt(fs, inode, cur, k - d);
      if !Stalls(fs, lost, cur, k) {
        DoubleStepRefines(fs, inode, n, cur, k - d);
        StepShift(fs, inode, n, cur, k - d, k);
      }
    }
  }

  /** What a run with the true block count reads whatever fails: the right block at first, then always the
      block as far back as the run has fallen behind. */
  lemma {:induction false} LaggingAnswer(fs: Fs, inode: seq<Byte>, lost: set<nat>, n: nat, k: nat)
    requires fs.Valid() && ValidInode(inode) && k < n < Capacity(fs) && n < TWO_32
    ensures Served(fs, inode, n, lost, k)
    ensures Answer(fs, inode, n, lost, k) == Chase(fs, inode, k - Lag(fs, lost, k))
  {
    hide InnerBase, Step, InBounds, At, Chase;
    LaggingCursor(fs, inode, lost, n, k);
    var cur := RunTo(fs, inode, n, lost, k).value;
    if k < IND_BLOCK + fs.AddrPerBlock() {
      SingleStepRefines(fs, inode, n, cur, k);
    } else {
      var d := Lag(fs, lost, k - 1);
      MissingWhenAt(fs, inode, cur, k - d);
      if Stalls(fs, lost, cur, k) {
        LaggingAnswer(fs, inode, lost, n, k - 1);
      } else {
        DoubleStepRefines(fs, inode, n, cur, k - d);
        StepShift(fs, inode, n, cur, k - d, k);
      }
    }
  }

  lemma {:induction false} LagOfNone(fs: Fs, lost: set<nat>, k: nat)
    requires fs.Valid() && IND_BLOCK + fs.AddrPerBlock() !in lost
    ensures Lag(fs, lost, k) == 0
  {
    if k > IND_BLOCK + fs.AddrPerBlock() {
      LagOfNone(fs, lost, k - 1);
    }
  }

  lemma {:induction false} LagOfAll(fs: Fs, lost: set<nat>, k: nat)
    requires fs.Valid() && IND_BLOCK + fs.AddrPerBlock() <= k
    requires forall i :: IND_BLOCK + fs.AddrPerBlock() <= i <= k ==> i in lost
    ensures Lag(fs, lost, k) == k + 1 - (IND_BLOCK + fs.AddrPerBlock())
  {
    if k > IND_BLOCK + fs.AddrPerBlock() {
      LagOfAll(fs, lost, k - 1);
    }
  }

  lemma {:induction false} LagOfOne(fs: Fs, lost: set<nat>, k: nat)
    requires fs.Valid() && IND_BLOCK + fs.AddrPerBlock() <= k
    requires IND_BLOCK + fs.AddrPerBlock() in lost && IND_BLOCK + fs.AddrPerBlock() + 1 !in lost
    ensures Lag(fs, lost, k) == 1
  {
    if k > IND_BLOCK + fs.AddrPerBlock() {
      LagOfOne(fs, lost, k - 1);
    }
  }

  /** Once the first load has succeeded, blocks distinct or not, nothing can go wrong. */
  lemma LoadedOnce(fs: Fs, inode: seq<Byte>, lost: set<nat>, n: nat)
    requires fs.Valid() && ValidInode(inode) && n < Capacity(fs) && n < TWO_32
    requires n <= IND_BLOCK + fs.AddrPerBlock() || IND_BLOCK + fs.AddrPerBlock() !in lost
    ensures AllRight(fs, inode, n, lost, n)
  {
    hide InnerBase, Chase, Served, Answer;
    forall k | 0 <= k < n
      ensures Served(fs, inode, n, lost, k) && Answer(fs, inode, n, lost, k) == Chase(fs, inode, k)
    {
      LaggingAnswer(fs, inode, lost, n, k);
      if n > IND_BLOCK + fs.AddrPerBlock() {
        LagOfNone(fs, lost, k);
      }
    }
  }

  /** A double-indirect block that can never be read makes the last block in front of it stand for the whole
      rest of the file. */
  lemma UnreadableDoubleIndirect(fs: Fs, inode: seq<Byte>, lost: set<nat>, n: nat, k: nat)
    requires fs.Valid() && ValidInode(inode) && IND_BLOCK + fs.AddrPerBlock() <= k < n < Capacity(fs) && n < TWO_32
    requires forall i :: IND_BLOCK + fs.AddrPerBlock() <= i < n ==> i in lost
    ensures Served(fs, inode, n, lost, k)
    ensures Answer(fs, inode, n, lost, k) == Chase(fs, inode, IND_BLOCK + fs.AddrPerBlock() - 1)
  {
    hide InnerBase, Chase, Served, Answer;
    LagOfAll(fs, lost, k);
    LaggingAnswer(fs, inode, lost, n, k);
  }

  /** One that fails to be read once shifts the rest of the file by one block. */
  lemma DoubleIndirectLostOnce(fs: Fs, inode: seq<Byte>, n: nat, k: nat)
    requires fs.Valid() && ValidInode(inode) && IND_BLOCK + fs.AddrPerBlock() <= k < n < Capacity(fs) && n < TWO_32
    ensures var lost := {IND_BLOCK + fs.AddrPerBlock()};
            Served(fs, inode, n, lost, k) && Answer(fs, inode, n, lost, k) == Chase(fs, inode, k - 1)
  {
    hide InnerBase, Chase, Served, Answer;
    LagOfOne(fs, {IND_BLOCK + fs.AddrPerBlock()}, k);
    LaggingAnswer(fs, inode, {IND_BLOCK + fs.AddrPerBlock()}, n, k);
  }
}
