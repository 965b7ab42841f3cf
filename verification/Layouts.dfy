/** The on-disk structures written out field by field, in the order the format lists them, and what the readers
    make of them: the pointers of a file laid out from a list of blocks, the extents of a tree, and the fields of
    inodes, superblocks, group descriptors and partition tables. */
module Layouts {
  import opened Bytes
  import opened Volume
  import opened IndirectMap
  import opened ExtentTree
  import opened BlockMap
  import GroupTable
  import PartitionTable

  // ----- little-endian words -----

  predicate AreWords(ws: seq<nat>) {
    forall i :: 0 <= i < |ws| ==> ws[i] < TWO_32
  }

  /** The words one behind the other. */
  function Words(ws: seq<nat>): (b: seq<Byte>)
    requires AreWords(ws)
    ensures |b| == 4 * |ws|
  {
    if ws == [] then [] else Words(ws[..|ws| - 1]) + ToLe32(ws[|ws| - 1])
  }

  /** Two 16-bit fields that share a word. */
  function Halves(lo: nat, hi: nat): (w: nat)
    requires lo < 0x1_0000 && hi < 0x1_0000
    ensures w < TWO_32
  {
    lo + 0x1_0000 * hi
  }

  /** Byte o starts the encoding of w. */
  predicate WordIs(b: seq<Byte>, o: nat, w: nat) {
    w < TWO_32 && o + 4 <= |b| && b[o..o + 4] == ToLe32(w)
  }

  lemma ReadWord(b: seq<Byte>, o: nat, w: nat)
    requires WordIs(b, o, w)
    ensures Le32(b, o) == w
  {
    assert forall j :: 0 <= j < 4 ==> b[o + j] == ToLe32(w)[j];
  }

  lemma InsideWord(b: seq<Byte>, o: nat, w: nat)
    requires WordIs(b, o, w)
    ensures o + 4 <= |b|
  {
  }

  lemma ReadHalves(b: seq<Byte>, o: nat, lo: nat, hi: nat)
    requires lo < 0x1_0000 && hi < 0x1_0000 && WordIs(b, o, Halves(lo, hi))
    ensures Le16(b, o) == lo && Le16(b, o + 2) == hi
  {
    hide Le16, Le32, WordIs;
    assert o + 4 <= |b| by {
      InsideWord(b, o, Halves(lo, hi));
    }
    ReadWord(b, o, Halves(lo, hi));
    HalvesOf(b, o);
    DivModUnique(Le32(b, o), 0x1_0000, hi, lo);
    DivModUnique(Le32(b, o), 0x1_0000, Le16(b, o + 2), Le16(b, o));
  }

  lemma HalvesOf(b: seq<Byte>, o: nat)
    requires o + 4 <= |b|
    ensures Le32(b, o) == Le16(b, o + 2) * 0x1_0000 + Le16(b, o)
  {
  }

  /** Word i of a run of words stands 4 * i bytes behind its start. */
  lemma {:induction false} WordAt(before: seq<Byte>, ws: seq<nat>, after: seq<Byte>, i: nat)
    requires AreWords(ws) && i < |ws|
    ensures WordIs(before + Words(ws) + after, |before| + 4 * i, ws[i])
  {
    hide ToLe32;
    var front, last := ws[..|ws| - 1], ToLe32(ws[|ws| - 1]);
    assert before + Words(ws) + after == before + Words(front) + (last + after);
    if i < |front| {
      WordAt(before, front, last + after, i);
    } else {
      var b := before + Words(front) + (last + after);
      assert b[|before| + 4 * i..|before| + 4 * i + 4] == last;
    }
  }

  /** The same at the very start. */
  lemma LeadingWord(ws: seq<nat>, extra: seq<Byte>, i: nat)
    requires AreWords(ws) && i < |ws|
    ensures WordIs(Words(ws) + extra, 4 * i, ws[i]) && Le32(Words(ws) + extra, 4 * i) == ws[i]
  {
    hide Words;
    assert [] + Words(ws) + extra == Words(ws) + extra;
    WordAt([], ws, extra, i);
    ReadWord(Words(ws) + extra, 4 * i, ws[i]);
  }

  lemma {:induction false} WordsConcat(ws: seq<nat>, ws': seq<nat>)
    requires AreWords(ws) && AreWords(ws')
    ensures AreWords(ws + ws') && Words(ws + ws') == Words(ws) + Words(ws')
    decreases |ws'|
  {
    hide ToLe32;
    if ws' == [] {
      assert ws + ws' == ws;
    } else {
      var front := ws'[..|ws'| - 1];
      assert (ws + ws')[..|ws + ws'| - 1] == ws + front;
      WordsConcat(ws, front);
    }
  }

  // ----- inodes -----

  /** The first 128 bytes of an inode. The flags are split at EXT4_EXTENTS_FL, their bit 19. */
  datatype InodeImage = InodeImage(mode: nat, uid: nat, sizeLo: nat, times: seq<nat>, gid: nat, links: nat,
                                   blocksLo: nat, flagsBelow: nat, extents: bool, flagsAbove: nat, osd1: nat,
                                   block: seq<nat>, generation: nat, fileAcl: nat, sizeHigh: nat, obsolete: nat,
                                   osd2: seq<nat>)
  {
    predicate Valid() {
      && mode < 0x1_0000 && uid < 0x1_0000 && gid < 0x1_0000 && links < 0x1_0000
      && flagsBelow < 0x8_0000 && flagsAbove < 0x1000
      && |times| == 4 && |block| == 15 && |osd2| == 3
      && AreWords(times + block + osd2 + [sizeLo, blocksLo, osd1, generation, fileAcl, sizeHigh, obsolete])
    }

    function Flags(): nat {
      flagsBelow + (if extents then 0x8_0000 else 0) + 0x10_0000 * flagsAbove
    }

    function Fields(): (ws: seq<nat>)
      requires Valid()
      ensures |ws| == 32
    {
      [Halves(mode, uid), sizeLo] + times + [Halves(gid, links), blocksLo, Flags(), osd1] + block
      + [generation, fileAcl, sizeHigh, obsolete] + osd2
    }

    lemma FieldsAreWords()
      requires Valid()
      ensures AreWords(Fields()) && AreWords(block)
    {
      var all := times + block + osd2 + [sizeLo, blocksLo, osd1, generation, fileAcl, sizeHigh, obsolete];
      assert forall i :: 0 <= i < 4 ==> times[i] == all[i];
      assert forall i :: 0 <= i < 15 ==> block[i] == all[4 + i];
      assert forall i :: 0 <= i < 3 ==> osd2[i] == all[19 + i];
      assert forall i :: 0 <= i < 7 ==>
               all[22 + i] == [sizeLo, blocksLo, osd1, generation, fileAcl, sizeHigh, obsolete][i];
      assert sizeLo == all[22] && blocksLo == all[23] && osd1 == all[24] && generation == all[25];
      assert fileAcl == all[26] && sizeHigh == all[27] && obsolete == all[28];
    }

    lemma FieldsInPlace()
      requires Valid()
      ensures Fields()[0] == Halves(mode, uid) && Fields()[1] == sizeLo && Fields()[8] == Flags()
      ensures Fields()[27] == sizeHigh && forall k :: 0 <= k < 15 ==> Fields()[10 + k] == block[k]
    {
    }

    function Encoded(): (b: seq<Byte>)
      requires Valid()
      ensures |b| == 128
    {
      FieldsAreWords();
      Words(Fields())
    }
  }

  /** Every field of an inode is read where the format puts it, whatever follows the first 128 bytes. */
  lemma InodeFields(f: InodeImage, extra: seq<Byte>)
    requires f.Valid()
    ensures var inode := f.Encoded() + extra;
            && ValidInode(inode)
            && SizeLo(inode) == f.sizeLo && SizeHigh(inode) == f.sizeHigh
            && Size(inode) == f.sizeHigh * 0x1_0000_0000 + f.sizeLo
            && (UsesExtents(inode) <==> f.extents)
            && inode[0] as nat + 0x100 * inode[1] as nat == f.mode
            && AreWords(f.block) && IBlockBytes(inode) == Words(f.block)
            && forall k :: 0 <= k < 15 ==> IBlock(inode, k) == f.block[k]
  {
    hide Words, Le16, Le32, Halves, InodeImage.Fields, InodeImage.Flags, WordIs;
    f.FieldsAreWords();
    f.FieldsInPlace();
    var inode, ws := f.Encoded() + extra, f.Fields();
    LeadingWord(ws, extra, 0);
    ReadHalves(inode, 4 * 0, f.mode, f.uid);
    ModeBytes(inode);
    LeadingWord(ws, extra, 1);
    LeadingWord(ws, extra, 8);
    LeadingWord(ws, extra, 27);
    forall k | 0 <= k < 15
      ensures IBlock(inode, k) == f.block[k]
    {
      LeadingWord(ws, extra, 10 + k);
    }
    BlockPart(f);
    FlagBit(f);
  }

  /** The fifteen words of i_block, as a run of bytes. */
  lemma BlockPart(f: InodeImage)
    requires f.Valid()
    ensures AreWords(f.block) && f.Encoded()[40..100] == Words(f.block)
  {
    hide Words, Halves, InodeImage.Flags;
    f.FieldsAreWords();
    var ws := f.Fields();
    assert ws == ws[..10] + (f.block + ws[25..]);
    WordsConcat(ws[..10], f.block + ws[25..]);
    WordsConcat(f.block, ws[25..]);
  }

  lemma ModeBytes(inode: seq<Byte>)
    requires |inode| >= 2
    ensures Le16(inode, 0) == inode[0] as nat + 0x100 * inode[1] as nat
  {
  }

  lemma FlagBit(f: InodeImage)
    requires f.flagsBelow < 0x8_0000
    ensures f.Flags() / 0x8_0000 % 2 == 1 <==> f.extents
  {
    BitOf(f.Flags(), 0x8_0000, f.flagsBelow, if f.extents then 1 else 0, f.flagsAbove);
  }

  // ----- pointer blocks -----

  /** n entries of a list from index `from` on, zeros behind its end. */
  function Span(list: seq<nat>, from: nat, n: nat): (s: seq<nat>)
    ensures |s| == n
  {
    seq(n, i requires 0 <= i < n => if from + i < |list| then list[from + i] else 0)
  }

  lemma SpanAreWords(list: seq<nat>, from: nat, n: nat)
    requires AreWords(list)
    ensures AreWords(Span(list, from, n))
  {
  }

  /** Block nr holds these numbers, one behind the other. */
  predicate Holds(fs: Fs, nr: nat, ps: seq<nat>)
    requires fs.Valid()
  {
    |ps| == fs.AddrPerBlock() && AreWords(ps) && fs.Block(nr) == Words(ps)
  }

  lemma PointerAt(fs: Fs, nr: nat, ps: seq<nat>, i: nat)
    requires fs.Valid() && Holds(fs, nr, ps) && i < |ps|
    ensures Ptr(fs, nr, i) == ps[i]
  {
    hide Words;
    assert [] + Words(ps) + [] == Words(ps);
    WordAt([], ps, [], i);
    ReadWord(fs.Block(nr), 4 * i, ps[i]);
  }

  /** A file laid out from the list of its blocks: twelve in the inode, as many as fit in the indirect block, the
      rest in the blocks that the double-indirect block lists. */
  predicate LaidOut(fs: Fs, f: InodeImage, list: seq<nat>, inner: seq<nat>)
    requires fs.Valid()
  {
    var a := fs.AddrPerBlock();
    && f.Valid() && |list| <= Capacity(fs) && AreWords(list)
    && f.block[..12] == Span(list, 0, 12)
    && (12 < |list| ==> Holds(fs, f.block[12], Span(list, 12, a)))
    && (12 + a < |list| ==> Holds(fs, f.block[13], inner))
    && (forall o :: 0 <= o < |inner| && 12 + a + o * a < |list| ==> Holds(fs, inner[o], Span(list, 12 + a + o * a, a)))
  }

  /** Logical block k of such a file is the k-th of the list. */
  lemma ChaseIsTheList(fs: Fs, f: InodeImage, extra: seq<Byte>, list: seq<nat>, inner: seq<nat>, k: nat)
    requires fs.Valid() && LaidOut(fs, f, list, inner) && k < |list|
    ensures ValidInode(f.Encoded() + extra) && Chase(fs, f.Encoded() + extra, k) == list[k]
  {
    hide Words, Ptr, Row, Col, IBlock, InnerBase;
    InodeFields(f, extra);
    var inode, a := f.Encoded() + extra, fs.AddrPerBlock();
    if k < 12 {
      assert f.block[..12][k] == list[k];
    } else if k < 12 + a {
      PointerAt(fs, f.block[12], Span(list, 12, a), k - 12);
    } else {
      Coordinates(fs, k);
      var o, j := Row(fs, k), Col(fs, k);
      InnerStart(fs, o);
      PointerAt(fs, f.block[13], inner, o);
      PointerAt(fs, inner[o], Span(list, 12 + a + o * a, a), j);
    }
  }

  lemma InnerStart(fs: Fs, o: nat)
    ensures InnerBase(fs, o) == 12 + fs.AddrPerBlock() + o * fs.AddrPerBlock()
  {
  }

  // ----- extent trees -----

  /** A tree as it is meant: leaves list extents, index nodes list children with the block each lies in and the first
      logical block it is responsible for. `max` and `generation` are header fields of no consequence. */
  datatype Node =
    | Leaf(max: nat, generation: nat, extents: seq<Extent>)
    | Index(max: nat, generation: nat, children: seq<Child>)
  {
    function Count(): nat {
      if Leaf? then |extents| else |children|
    }

    /** Its fields are in range: 16 bits for counts and for the high half of an address, lengths up to 2^15, one less
        for unwritten extents. */
    predicate Valid() {
      && max < 0x1_0000 && generation < TWO_32 && Count() < 0x1_0000
      && (if Leaf? then forall i :: 0 <= i < |extents| ==> ValidExtent(extents[i])
          else forall i :: 0 <= i < |children| ==> children[i].key < TWO_32 && 0 < children[i].addr < TWO_32)
    }

    /** The three words of entry i. */
    function Entry(i: nat): (ws: seq<nat>)
      requires Valid() && i < Count()
      ensures |ws| == 3 && AreWords(ws)
    {
      if Leaf? then
        var e := extents[i];
        [e.block, Halves(if e.written then e.len else 0x8000 + e.len, e.start / TWO_32), e.start % TWO_32]
      else [children[i].key, children[i].addr, Halves(0, 0)]
    }

    function Body(n: nat): (ws: seq<nat>)
      requires Valid() && n <= Count()
      ensures |ws| == 3 * n && AreWords(ws)
    {
      if n == 0 then [] else Body(n - 1) + Entry(n - 1)
    }

    function Fields(depth: nat): (ws: seq<nat>)
      requires Valid() && depth < 0x1_0000
      ensures AreWords(ws) && |ws| == 3 + 3 * Count()
    {
      [Halves(0xf30a, Count()), Halves(max, depth), generation] + Body(Count())
    }

    function Encoded(depth: nat): seq<Byte>
      requires Valid() && depth < 0x1_0000
    {
      Words(Fields(depth))
    }
  }

  datatype Child = Child(key: nat, addr: nat, node: Node)

  predicate ValidExtent(e: Extent) {
    && e.block < TWO_32 && e.start / TWO_32 < 0x1_0000
    && 0 < e.len <= (if e.written then 0x8000 else 0x7fff)
  }

  /** The tree below these bytes is this one. */
  predicate Stored(fs: Fs, b: seq<Byte>, node: Node, depth: nat)
    decreases node
  {
    && node.Valid() && depth < 0x1_0000 && (depth == 0 <==> node.Leaf?)
    && node.Encoded(depth) <= b
    && (node.Index? ==>
          forall i :: 0 <= i < |node.children| ==>
            Stored(fs, fs.Block(node.children[i].addr), node.children[i].node, depth - 1))
  }

  /** Its entries are in order and stay in the interval of logical blocks they are responsible for. */
  predicate InOrder(node: Node, lo: nat, hi: nat)
    decreases node
  {
    match node
    case Leaf(_, _, es) =>
      && (forall i :: 0 <= i < |es| ==> lo <= es[i].block < hi && es[i].block + es[i].len <= hi)
      && (forall i, j :: 0 <= i < j < |es| ==> es[i].block + es[i].len <= es[j].block && es[i].block < es[j].block)
    case Index(_, _, cs) =>
      && cs != []
      && (forall i :: 0 <= i < |cs| ==> lo <= cs[i].key < hi)
      && (forall i, j :: 0 <= i < j < |cs| ==> cs[i].key < cs[j].key)
      && (forall i :: 0 <= i < |cs| ==>
            InOrder(cs[i].node, cs[i].key, if i + 1 < |cs| then cs[i + 1].key else hi))
  }

  /** All its extents, left to right. */
  function ListOf(node: Node): seq<Extent>
    decreases node, node.Count() + 1
  {
    if node.Leaf? then node.extents else ListFrom(node, 0)
  }

  function ListFrom(node: Node, i: nat): seq<Extent>
    requires node.Index? && i <= |node.children|
    decreases node, |node.children| - i
  {
    if i == |node.children| then [] else ListOf(node.children[i].node) + ListFrom(node, i + 1)
  }

  lemma {:induction false} EntryInBody(node: Node, n: nat, i: nat)
    requires node.Valid() && i < n <= node.Count()
    ensures node.Body(n)[3 * i..3 * i + 3] == node.Entry(i)
  {
    hide Node.Entry, Node.Valid;
    if i < n - 1 {
      EntryInBody(node, n - 1, i);
      assert node.Body(n)[3 * i..3 * i + 3] == node.Body(n - 1)[3 * i..3 * i + 3];
    }
  }

  lemma FieldsOfNode(node: Node, depth: nat)
    requires node.Valid() && depth < 0x1_0000
    ensures node.Count() < 0x1_0000 && node.max < 0x1_0000
    ensures node.Fields(depth)[0] == Halves(0xf30a, node.Count()) && node.Fields(depth)[1] == Halves(node.max, depth)
    ensures forall i, j :: 0 <= i < node.Count() && 0 <= j < 3 ==>
              node.Fields(depth)[3 + 3 * i + j] == node.Entry(i)[j]
  {
    hide Halves, Node.Entry, Node.Body;
    forall i, j | 0 <= i < node.Count() && 0 <= j < 3
      ensures node.Fields(depth)[3 + 3 * i + j] == node.Entry(i)[j]
    {
      EntryInBody(node, node.Count(), i);
      assert node.Body(node.Count())[3 * i..3 * i + 3][j] == node.Entry(i)[j];
    }
  }

  /** The header, and the three words of entry i, where the node's readers look for them. */
  lemma NodeWords(b: seq<Byte>, node: Node, depth: nat)
    requires node.Valid() && depth < 0x1_0000 && node.Encoded(depth) <= b
    ensures Fits(b) && Magic(b) == 0xf30a && Entries(b) == node.Count() && HeaderDepth(b) == depth
    ensures forall i, j :: 0 <= i < node.Count() && 0 <= j < 3 ==> WordIs(b, 12 + 12 * i + 4 * j, node.Entry(i)[j])
  {
    hide Words, Halves, Node.Entry, Node.Valid, Node.Fields, Le16, WordIs, ToLe32;
    FieldsOfNode(node, depth);
    var ws := node.Fields(depth);
    var rest := b[|Words(ws)|..];
    assert b == Words(ws) + rest;
    LeadingWord(ws, rest, 0);
    ReadHalves(b, 4 * 0, 0xf30a, node.Count());
    LeadingWord(ws, rest, 1);
    ReadHalves(b, 4 * 1, node.max, depth);
    forall i, j | 0 <= i < node.Count() && 0 <= j < 3
      ensures WordIs(b, 12 + 12 * i + 4 * j, node.Entry(i)[j])
    {
      assert ws[3 + 3 * i + j] == node.Entry(i)[j];
      LeadingWord(ws, rest, 3 + 3 * i + j);
    }
  }

  /** An entry of a leaf is read back as the extent it was made from. */
  lemma LeafEntry(b: seq<Byte>, node: Node, i: nat)
    requires node.Valid() && node.Leaf? && node.Encoded(0) <= b && i < |node.extents|
    ensures Fits(b) && i < Entries(b) && ExtentAt(b, i) == node.extents[i] && Key(b, i) == node.extents[i].block
    ensures Len(b, i) > 0 && BlocksIn(Len(b, i)) == node.extents[i].len
  {
    hide Words, Halves, Le16, Le32, WordIs, Node.Encoded, Node.Body;
    NodeWords(b, node, 0);
    var e, at := node.extents[i], 12 + 12 * i;
    assert WordIs(b, at + 4 * 0, node.Entry(i)[0]) && WordIs(b, at + 4 * 1, node.Entry(i)[1]);
    assert WordIs(b, at + 4 * 2, node.Entry(i)[2]);
    ReadWord(b, at, e.block);
    ReadHalves(b, at + 4, if e.written then e.len else 0x8000 + e.len, e.start / TWO_32);
    ReadWord(b, at + 8, e.start % TWO_32);
  }

  /** An entry of an index node names its child. */
  lemma IndexEntry(b: seq<Byte>, node: Node, depth: nat, i: nat)
    requires node.Valid() && node.Index? && depth < 0x1_0000 && node.Encoded(depth) <= b && i < |node.children|
    ensures Fits(b) && i < Entries(b) && Key(b, i) == node.children[i].key
    ensures LeafLo(b, i) == node.children[i].addr && LeafHi(b, i) == 0 && ChildOf(b, i) == node.children[i].addr
  {
    hide Words, Le16, Le32, WordIs, Halves, Node.Encoded, Node.Body, CodeAddr;
    NodeWords(b, node, depth);
    var at := 12 + 12 * i;
    assert WordIs(b, at + 4 * 0, node.Entry(i)[0]) && WordIs(b, at + 4 * 1, node.Entry(i)[1]);
    assert WordIs(b, at + 4 * 2, node.Entry(i)[2]);
    ReadWord(b, at, node.children[i].key);
    ReadWord(b, at + 4, node.children[i].addr);
    ReadHalves(b, at + 8, 0, 0);
    CodeAddrExact(LeafHi(b, i), LeafLo(b, i));
  }

  /** Parsing inverts writing, whatever the depth: a stored tree whose entries are in order is well formed, and its
      extents are the ones it was made from, left to right. */
  lemma {:induction false} FlattenOfStored(fs: Fs, b: seq<Byte>, node: Node, depth: nat, lo: nat, hi: nat)
    requires Stored(fs, b, node, depth) && InOrder(node, lo, hi)
    ensures WellFormed(fs, b, depth, lo, hi) && Flatten(fs, b, depth, lo, hi) == ListOf(node)
    decreases node, 1
  {
    hide Node.Encoded, Key, Len, LeafLo, LeafHi, ExtentAt, Entries, BlocksIn, Fs.Block;
    NodeWords(b, node, depth);
    if node.Leaf? {
      LeafOfStored(fs, b, node, lo, hi);
      LeafList(fs, b, node, lo, hi, 0);
    } else {
      IndexOfStored(fs, b, node, depth, lo, hi);
      IndexList(fs, b, node, depth, lo, hi, 0);
    }
  }

  lemma LeafOfStored(fs: Fs, b: seq<Byte>, node: Node, lo: nat, hi: nat)
    requires Stored(fs, b, node, 0) && InOrder(node, lo, hi)
    ensures WellFormed(fs, b, 0, lo, hi) && Entries(b) == |node.extents|
  {
    hide Node.Encoded, Key, Len, ExtentAt, Entries, BlocksIn, Fs.Block;
    NodeWords(b, node, 0);
    forall i | 0 <= i < |node.extents|
      ensures i < Entries(b) && Key(b, i) == node.extents[i].block
      ensures Len(b, i) > 0 && BlocksIn(Len(b, i)) == node.extents[i].len
    {
      LeafEntry(b, node, i);
    }
  }

  lemma {:induction false} LeafList(fs: Fs, b: seq<Byte>, node: Node, lo: nat, hi: nat, i: nat)
    requires Stored(fs, b, node, 0) && WellFormed(fs, b, 0, lo, hi) && Entries(b) == |node.extents|
    requires i <= |node.extents|
    ensures FlattenFrom(fs, b, 0, lo, hi, i) == node.extents[i..]
    decreases |node.extents| - i
  {
    hide Node.Encoded, Node.Valid, Key, Len, ExtentAt, Entries, WellFormed;
    if i < |node.extents| {
      LeafEntry(b, node, i);
      LeafList(fs, b, node, lo, hi, i + 1);
    }
  }

  lemma {:induction false} IndexOfStored(fs: Fs, b: seq<Byte>, node: Node, depth: nat, lo: nat, hi: nat)
    requires Stored(fs, b, node, depth) && node.Index? && InOrder(node, lo, hi)
    ensures WellFormed(fs, b, depth, lo, hi) && Entries(b) == |node.children|
    decreases node, 0
  {
    hide Node.Encoded, Node.Valid, Key, LeafLo, LeafHi, Entries, Fs.Block;
    NodeWords(b, node, depth);
    forall i | 0 <= i < |node.children|
      ensures i < Entries(b) && Key(b, i) == node.children[i].key && LeafHi(b, i) == 0 && LeafLo(b, i) != 0
      ensures LeafLo(b, i) == node.children[i].addr
    {
      IndexEntry(b, node, depth, i);
      ChildrenExist(node, i);
    }
    forall i | 0 <= i < |node.children|
      ensures WellFormed(fs, fs.Block(LeafLo(b, i)), depth - 1, Key(b, i), NextKey(b, i, hi))
    {
      var next := if i + 1 < |node.children| then node.children[i + 1].key else hi;
      assert NextKey(b, i, hi) == next;
      var child := node.children[i];
      FlattenOfStored(fs, fs.Block(child.addr), child.node, depth - 1, child.key, next);
    }
  }

  lemma ChildrenExist(node: Node, i: nat)
    requires node.Valid() && node.Index? && i < |node.children|
    ensures node.children[i].addr != 0
  {
  }

  lemma {:induction false} IndexOwn(fs: Fs, b: seq<Byte>, node: Node, depth: nat, lo: nat, hi: nat, i: nat)
    requires Stored(fs, b, node, depth) && node.Index? && InOrder(node, lo, hi) && i < |node.children|
    requires WellFormed(fs, b, depth, lo, hi) && Entries(b) == |node.children|
    ensures OwnExtents(fs, b, depth, lo, hi, i) == ListOf(node.children[i].node)
    decreases node, 0, 0
  {
    hide Node.Encoded, Node.Valid, Key, LeafLo, LeafHi, Entries, Fs.Block, ListOf, ListFrom, Flatten;
    IndexEntry(b, node, depth, i);
    if i + 1 < |node.children| {
      IndexEntry(b, node, depth, i + 1);
    }
    var next := if i + 1 < |node.children| then node.children[i + 1].key else hi;
    assert NextKey(b, i, hi) == next;
    FlattenOfStored(fs, fs.Block(node.children[i].addr), node.children[i].node, depth - 1, node.children[i].key, next);
  }

  lemma {:induction false} IndexList(fs: Fs, b: seq<Byte>, node: Node, depth: nat, lo: nat, hi: nat, i: nat)
    requires Stored(fs, b, node, depth) && node.Index? && InOrder(node, lo, hi) && i <= |node.children|
    requires WellFormed(fs, b, depth, lo, hi) && Entries(b) == |node.children|
    ensures FlattenFrom(fs, b, depth, lo, hi, i) == ListFrom(node, i)
    decreases node, 0, |node.children| + 1 - i
  {
    hide Stored, InOrder, WellFormed, OwnExtents, ListOf, Entries;
    if i < |node.children| {
      IndexOwn(fs, b, node, depth, lo, hi, i);
      IndexList(fs, b, node, depth, lo, hi, i + 1);
    }
  }

  /** So the extents of a file are those its tree was made from, and every one of them covers its blocks. */
  lemma ExtentsOfFile(fs: Fs, inode: seq<Byte>, node: Node, depth: nat)
    requires ValidInode(inode) && Stored(fs, IBlockBytes(inode), node, depth) && InOrder(node, 0, TWO_32)
    ensures ValidRoot(fs, inode) && FileExtents(fs, inode) == ListOf(node)
  {
    hide Stored, InOrder, WellFormed, Flatten, Node.Encoded;
    RootOfStored(fs, IBlockBytes(inode), node, depth);
    FlattenOfStored(fs, IBlockBytes(inode), node, depth, 0, TWO_32);
  }

  lemma RootOfStored(fs: Fs, b: seq<Byte>, node: Node, depth: nat)
    requires Stored(fs, b, node, depth)
    ensures |b| >= 12 && Magic(b) == EXT_MAGIC && HeaderDepth(b) == depth
  {
    hide Node.Encoded;
    NodeWords(b, node, depth);
  }

  // ----- superblocks and group descriptors -----

  /** The fields of a superblock made of 256 words. */
  lemma SuperblockFields(ws: seq<nat>, extra: seq<Byte>)
    requires |ws| == 256 && AreWords(ws)
    ensures var sb := Words(ws) + extra;
            && GroupTable.IsSuperBlock(sb)
            && GroupTable.InodesCount(sb) == ws[0]
            && GroupTable.BlocksCountLo(sb) == ws[1]
            && GroupTable.BlocksCount(sb) == ws[84] * 0x1_0000_0000 + ws[1]
            && GroupTable.FirstDataBlock(sb) == ws[5]
            && GroupTable.LogBlockSize(sb) == ws[6]
            && GroupTable.BlocksPerGroup(sb) == ws[8]
            && GroupTable.InodesPerGroup(sb) == ws[10]
            && GroupTable.RevLevel(sb) == ws[19]
            && GroupTable.FirstMetaBg(sb) == ws[65]
  {
    hide Words, Le32;
    forall i | i in {0, 1, 5, 6, 8, 10, 19, 65, 84}
      ensures Le32(Words(ws) + extra, 4 * i) == ws[i]
    {
      LeadingWord(ws, extra, i);
    }
  }

  /** Its 16-bit fields: the magic number is the low half of word 14, the inode size that of word 22, the descriptor
      size the high half of word 63. */
  lemma SuperblockHalves(ws: seq<nat>, extra: seq<Byte>, magic: nat, state: nat, inodeSize: nat, blockGroup: nat,
                         reserved: nat, descSize: nat)
    requires |ws| == 256 && AreWords(ws)
    requires magic < 0x1_0000 && state < 0x1_0000 && inodeSize < 0x1_0000 && blockGroup < 0x1_0000
    requires reserved < 0x1_0000 && descSize < 0x1_0000
    requires ws[14] == Halves(magic, state) && ws[22] == Halves(inodeSize, blockGroup)
    requires ws[63] == Halves(reserved, descSize)
    ensures var sb := Words(ws) + extra;
            && GroupTable.SuperMagic(sb) == magic && GroupTable.InodeSize(sb) == inodeSize
            && (GroupTable.Has64Bit(sb) ==> GroupTable.DescSize(sb) == descSize)
            && (!GroupTable.Has64Bit(sb) ==> GroupTable.DescSize(sb) == 32)
  {
    hide Words, Le32, Le16, Halves;
    var sb := Words(ws) + extra;
    LeadingWord(ws, extra, 14);
    LeadingWord(ws, extra, 22);
    LeadingWord(ws, extra, 63);
    ReadHalves(sb, 4 * 14, magic, state);
    ReadHalves(sb, 4 * 22, inodeSize, blockGroup);
    ReadHalves(sb, 4 * 63, reserved, descSize);
  }

  /** Its feature bits: META_BG is bit 4 and 64BIT bit 7 of word 24, SPARSE_SUPER bit 0 of word 25. */
  lemma SuperblockFeatures(ws: seq<nat>, extra: seq<Byte>, low: nat, metaBg: bool, middle: nat, is64: bool, high: nat)
    requires |ws| == 256 && AreWords(ws) && low < 0x10 && middle < 4
    requires ws[24] == low + (if metaBg then 0x10 else 0) + 0x20 * middle + (if is64 then 0x80 else 0) + 0x100 * high
    ensures var sb := Words(ws) + extra;
            && (GroupTable.HasMetaBg(sb) <==> metaBg) && (GroupTable.Has64Bit(sb) <==> is64)
            && (GroupTable.HasSparseSuper(sb) <==> ws[25] % 2 == 1)
  {
    hide Words, Le32, WordIs;
    LeadingWord(ws, extra, 24);
    LeadingWord(ws, extra, 25);
    FeatureBits(ws[24], low, metaBg, middle, is64, high);
  }

  lemma FeatureBits(w: nat, low: nat, metaBg: bool, middle: nat, is64: bool, high: nat)
    requires low < 0x10 && middle < 4
    requires w == low + (if metaBg then 0x10 else 0) + 0x20 * middle + (if is64 then 0x80 else 0) + 0x100 * high
    ensures w / 0x10 % 2 == 1 <==> metaBg
    ensures w / 0x80 % 2 == 1 <==> is64
  {
    var meta, wide := if metaBg then 1 else 0, if is64 then 1 else 0;
    BitOf(w, 0x10, low, meta, middle + 4 * wide + 8 * high);
    BitOf(w, 0x80, low + 0x10 * meta + 0x20 * middle, wide, high);
  }

  lemma BitOf(w: nat, unit: nat, below: nat, bit: nat, above: nat)
    requires bit < 2 && below < unit && w == (bit + 2 * above) * unit + below
    ensures w / unit % 2 == bit
  {
    DivModUnique(w, unit, bit + 2 * above, below);
  }

  /** The inode table's address is word 2 of a group descriptor, with word 10 above it on 64-bit file systems. */
  lemma GroupDescriptorFields(ws: seq<nat>, extra: seq<Byte>, is64: bool)
    requires AreWords(ws) && |ws| >= if is64 then 11 else 8
    ensures GroupTable.InodeTableBlock(Words(ws) + extra, is64) ==
            ws[2] + if is64 then ws[10] * 0x1_0000_0000 else 0
  {
    hide Words, Le32, WordIs;
    LeadingWord(ws, extra, 2);
    if is64 {
      LeadingWord(ws, extra, 10);
    }
  }

  // ----- partition tables -----

  /** The 16 bytes of one entry. */
  datatype SlotImage = SlotImage(status: Byte, chsFirst: seq<Byte>, kind: Byte, chsLast: seq<Byte>, lba: nat,
                                 sectors: nat)
  {
    predicate Valid() {
      |chsFirst| == 3 && |chsLast| == 3 && lba < TWO_32 && sectors < TWO_32
    }

    function Encoded(): (b: seq<Byte>)
      requires Valid()
      ensures |b| == 16
    {
      [status] + chsFirst + [kind] + chsLast + ToLe32(lba) + ToLe32(sectors)
    }
  }

  /** A boot record: boot code, four entries, the signature 55 AA. */
  function TableSector(boot: seq<Byte>, slots: seq<SlotImage>): (s: seq<Byte>)
    requires |boot| == 446 && |slots| == 4 && forall i :: 0 <= i < 4 ==> slots[i].Valid()
    ensures |s| == 512
  {
    boot + slots[0].Encoded() + slots[1].Encoded() + slots[2].Encoded() + slots[3].Encoded() + [0x55, 0xAA]
  }

  /** It is recognised, and every entry is read back. */
  lemma TableSectorFields(boot: seq<Byte>, slots: seq<SlotImage>, i: nat)
    requires |boot| == 446 && |slots| == 4 && forall i :: 0 <= i < 4 ==> slots[i].Valid()
    requires i < 4
    ensures var s := TableSector(boot, slots);
            && PartitionTable.Signed(s)
            && PartitionTable.EntryKind(s, i) == slots[i].kind as nat
            && PartitionTable.EntryLba(s, i) == slots[i].lba
            && PartitionTable.SlotKind(s, i) == slots[i].kind as nat
            && PartitionTable.SlotSector(s, i) == slots[i].lba
  {
    hide ToLe32, Le32;
    var s, e := TableSector(boot, slots), slots[i].Encoded();
    var at := 446 + 16 * i;
    assert s[at..at + 16] == e;
    assert s[at + 4] == e[4] == slots[i].kind;
    assert e[8..12] == ToLe32(slots[i].lba);
    assert s[at + 8..at + 12] == s[at..at + 16][8..12];
    ReadWord(s, at + 8, slots[i].lba);
    assert s[510] == 0x55 && s[511] == 0xAA;
  }
}
