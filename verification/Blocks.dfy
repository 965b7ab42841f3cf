/** The `blocks` object of one open file: the sequential cursor of the pointer layout and the path
    cache of the extent layout, updated in place by every request. */
module Blocks {
  import opened Bytes
  import opened Volume
  import opened IndirectMap
  import opened ExtentTree
  import opened BlockMap

  /** A header pointer: null, into the inode itself, or to a heap buffer holding a node that was read.
      Buffers carry a serial number so that each release can be accounted for. */
  datatype Header = NullHeader | InodeHeader | NodeHeader(id: nat, data: seq<Byte>)

  datatype PathElem = PathElem(pBlock: nat, pDepth: nat, pExt: Option<nat>, pIdx: Option<nat>, pHdr: Header)

  /** What a request comes to: an address; an error code, which the callers take for success, so that they go on
      with the address they have; or, after a failed read of a pointer block or an extent node, a null buffer
      that is followed. */
  datatype Reply = Address(nr: nat) | Kept | Died

  const ZEROED := PathElem(0, 0, None, None, NullHeader)

  /** Bytes behind a header pointer. */
  function HeaderBytes(inode: seq<Byte>, h: Header): seq<Byte>
    requires ValidInode(inode)
  {
    match h
    case NullHeader => []
    case InodeHeader => IBlockBytes(inode)
    case NodeHeader(_, data) => data
  }

  /** The child a level caches is exactly the block its own `p_block` names. */
  predicate ChildCached(fs: Fs, parent: PathElem, child: PathElem) {
    if parent.pBlock == 0 then child.pHdr == NullHeader
    else child.pHdr.NodeHeader? && child.pHdr.data == fs.Block(parent.pBlock)
  }

  /** The serial number of the buffer a header points to, if it points to one. */
  function OwnIds(h: Header): set<nat> {
    if h.NodeHeader? then {h.id} else {}
  }

  /** Serial numbers of the node buffers held at levels 1 .. depth. */
  function HeldIds(path: seq<PathElem>, depth: nat): set<nat>
    requires depth < |path|
  {
    set i | 1 <= i <= depth && path[i].pHdr.NodeHeader? :: path[i].pHdr.id
  }

  /** The cache invariant of a path of the given depth whose live node buffers are `live`. */
  ghost predicate PathOk(fs: Fs, path: seq<PathElem>, depth: nat, live: set<nat>) {
    && |path| == depth + 2
    && path[0].pHdr in {NullHeader, InodeHeader}
    && path[depth + 1].pHdr == NullHeader
    && (forall i :: 0 <= i < depth ==> ChildCached(fs, path[i], path[i + 1]))
    && (forall i, j :: 1 <= i < j <= depth && path[i].pHdr.NodeHeader? && path[j].pHdr.NodeHeader? ==>
          path[i].pHdr.id != path[j].pHdr.id)
    && live == HeldIds(path, depth)
  }

  /** Swapping in a freshly read child keeps the invariant, whatever the levels below still cache. */
  lemma ReplaceKeepsPathOk(fs: Fs, path: seq<PathElem>, path': seq<PathElem>, depth: nat, live: set<nat>,
                           p: nat, addr: nat, id: nat)
    requires PathOk(fs, path, depth, live) && id !in live && p < depth && addr != 0
    requires |path'| == |path| && forall i :: 0 <= i < |path| && i != p && i != p + 1 ==> path'[i] == path[i]
    requires path'[p].pHdr == path[p].pHdr && path'[p].pBlock == addr
    requires path'[p + 1].pBlock == path[p + 1].pBlock && path'[p + 1].pHdr == NodeHeader(id, fs.Block(addr))
    ensures PathOk(fs, path', depth, live + {id} - OwnIds(path[p + 1].pHdr))
  {
    ReplaceHeldIds(path, path', depth, p, id);
    forall i | 0 <= i < depth
      ensures ChildCached(fs, path'[i], path'[i + 1])
    {
      assert ChildCached(fs, path[i], path[i + 1]);
    }
    forall i | 1 <= i <= depth && i != p + 1 && path'[i].pHdr.NodeHeader?
      ensures path[i].pHdr == path'[i].pHdr && path[i].pHdr.id in HeldIds(path, depth)
    {
    }
  }

  /** The held serial numbers after level p + 1 got buffer id. */
  lemma ReplaceHeldIds(path: seq<PathElem>, path': seq<PathElem>, depth: nat, p: nat, id: nat)
    requires p < depth < |path| && |path'| == |path| && id !in HeldIds(path, depth)
    requires forall i :: 1 <= i < |path| && i != p + 1 ==> path'[i].pHdr == path[i].pHdr
    requires path'[p + 1].pHdr.NodeHeader? && path'[p + 1].pHdr.id == id
    requires forall i, j :: 1 <= i < j <= depth && path[i].pHdr.NodeHeader? && path[j].pHdr.NodeHeader? ==>
               path[i].pHdr.id != path[j].pHdr.id
    ensures HeldIds(path', depth) == HeldIds(path, depth) + {id} - OwnIds(path[p + 1].pHdr)
  {
  }

  /** Updating bookkeeping fields keeps the invariant. */
  lemma BookkeepingKeepsPathOk(fs: Fs, path: seq<PathElem>, path': seq<PathElem>, depth: nat, live: set<nat>)
    requires PathOk(fs, path, depth, live) && |path'| == |path|
    requires forall i :: 1 <= i < |path| ==> path'[i].pHdr == path[i].pHdr
    requires path'[0].pHdr in {NullHeader, InodeHeader}
    requires forall i :: 0 <= i < depth ==> path'[i].pBlock == path[i].pBlock
    ensures PathOk(fs, path', depth, live)
  {
  }

  /** Levels lo .. hi hold the live buffers, one each, and never the inode's own node. */
  ghost predicate HeldApart(path: seq<PathElem>, lo: nat, hi: nat, live: set<nat>)
    requires hi < |path|
  {
    && (forall j :: lo <= j <= hi ==> path[j].pHdr != InodeHeader)
    && (forall j :: lo <= j <= hi && path[j].pHdr.NodeHeader? ==> path[j].pHdr.id in live)
    && (forall j, j' :: lo <= j < j' <= hi && path[j].pHdr.NodeHeader? && path[j'].pHdr.NodeHeader? ==>
          path[j].pHdr.id != path[j'].pHdr.id)
    && (forall id :: id in live ==> exists j :: lo <= j <= hi && path[j].pHdr.NodeHeader? && path[j].pHdr.id == id)
  }

  lemma HeldApartStep(path: seq<PathElem>, lo: nat, hi: nat, live: set<nat>)
    requires lo <= hi < |path| && HeldApart(path, lo, hi, live)
    ensures path[lo].pHdr != InodeHeader
    ensures if path[lo].pHdr.NodeHeader? then path[lo].pHdr.id in live &&
            HeldApart(path, lo + 1, hi, live - {path[lo].pHdr.id})
            else HeldApart(path, lo + 1, hi, live)
  {
  }

  lemma HeldApartEnd(path: seq<PathElem>, lo: nat, hi: nat, live: set<nat>)
    requires hi < lo && hi < |path| && HeldApart(path, lo, hi, live)
    ensures live == {}
  {
  }

  /** Every level below the root holds a node buffer. */
  predicate AllHeld(path: seq<PathElem>, depth: nat)
    requires depth < |path|
  {
    forall i :: 1 <= i <= depth ==> path[i].pHdr.NodeHeader?
  }

  lemma LastHeld(path: seq<PathElem>, depth: nat)
    requires 0 < depth < |path|
    requires forall i :: 1 <= i < depth && path[i].pHdr.NodeHeader? && path[depth].pHdr.NodeHeader? ==>
               path[i].pHdr.id != path[depth].pHdr.id
    ensures |HeldIds(path, depth)| == |HeldIds(path, depth - 1)| + if path[depth].pHdr.NodeHeader? then 1 else 0
  {
    assert HeldIds(path, depth) == HeldIds(path, depth - 1) + OwnIds(path[depth].pHdr);
  }

  /** At most one buffer per level below the root; as many as levels exactly when all of them hold one. */
  lemma {:induction false} HeldIdsFull(path: seq<PathElem>, depth: nat)
    requires depth < |path|
    requires forall i, j :: 1 <= i < j <= depth && path[i].pHdr.NodeHeader? && path[j].pHdr.NodeHeader? ==>
               path[i].pHdr.id != path[j].pHdr.id
    ensures |HeldIds(path, depth)| <= depth
    ensures |HeldIds(path, depth)| == depth <==> AllHeld(path, depth)
  {
    if depth > 0 {
      hide HeldIds;
      HeldIdsFull(path, depth - 1);
      LastHeld(path, depth);
    }
  }

  /** What the cache invariant says about one level below the root. */
  lemma LevelBelow(fs: Fs, path: seq<PathElem>, depth: nat, live: set<nat>, p: nat)
    requires PathOk(fs, path, depth, live) && p < depth
    ensures OwnIds(path[p + 1].pHdr) <= live
    ensures |live| <= depth && (|live| == depth <==> AllHeld(path, depth))
  {
    assert ChildCached(fs, path[p], path[p + 1]);
    HeldIdsFull(path, depth);
  }

  lemma SwapBuffers(live: set<nat>, id: nat, dropped: set<nat>)
    requires id !in live
    ensures |live + {id}| == |live| + 1 && |live + {id} - dropped| <= |live| + 1
  {
  }

  function Max(a: nat, b: nat): nat {
    if a < b then b else a
  }

  class Blocks {
    const fs: Fs
    const inode: seq<Byte>
    const nBlock: nat
    /** The requests at which reading the double-indirect block fails, should it be needed. */
    const lost: set<nat>
    var buffer: Option<seq<Byte>>
    var indIndex: nat
    var dindirectBuf: Option<seq<Byte>>
    var dindIndex: nat
    var extentPath: array?<PathElem>
    // accounting of node buffers: serial numbers handed out, still allocated, and released in order
    var nodeReads: nat
    var live: set<nat>
    var released: seq<nat>
    /** The largest number of node buffers that were ever allocated at once. */
    ghost var peak: nat

    predicate Mounted() {
      fs.Valid() && ValidInode(inode) && nBlock == CursorBlockCount(fs, inode)
    }

    /** The path cache and the buffer accounting; the cursor fields are not involved. */
    ghost predicate Valid()
      reads `extentPath, `nodeReads, `live, `released, `peak, extentPath
    {
      && Mounted()
      && Conserved()
      && |live| <= peak <= Depth() + 1
      && (extentPath == null ==> live == {})
      && (extentPath != null ==> extentPath.Length == Depth() + 2 && PathOk(fs, extentPath[..], Depth(), live))
    }

    ghost function State(): Cursor
      reads `buffer, `indIndex, `dindirectBuf, `dindIndex
    {
      Cursor(buffer, indIndex, dindirectBuf, dindIndex)
    }

    function Depth(): nat
      requires ValidInode(inode)
    {
      RootDepth(inode)
    }

    /** Every serial number handed out is either still live or was released exactly once. */
    ghost predicate Conserved()
      reads `nodeReads, `live, `released
    {
      && (forall id :: id in live ==> id < nodeReads)
      && (forall id :: id in released ==> id < nodeReads && id !in live)
      && (forall id :: 0 <= id < nodeReads ==> id in live || id in released)
      && (forall i, j :: 0 <= i < j < |released| ==> released[i] != released[j])
    }

    constructor (fs: Fs, inode: seq<Byte>, lost: set<nat>)
      requires fs.Valid() && ValidInode(inode)
      ensures Valid() && this.fs == fs && this.inode == inode && this.lost == lost
      ensures State() == START && extentPath == null && nodeReads == 0 && peak == 0
    {
      this.fs := fs;
      this.inode := inode;
      this.lost := lost;
      nBlock := CursorBlockCount(fs, inode);
      buffer := None;
      indIndex := 0;
      dindirectBuf := None;
      extentPath := null;
      dindIndex := 0;
      nodeReads, live, released, peak := 0, {}, [], 0;
    }

    /** A device read may fail; when it succeeds it returns the block asked for. */
    method ReadBlock(nr: nat) returns (r: Option<seq<Byte>>)
      requires Mounted()
      ensures r.Some? ==> r.value == fs.Block(nr)
    {
      SectorReadIsBlock(fs, nr);
      var fail: bool := *;
      r := if fail then None else Some(ReadSectorsEx(fs.part, fs.blockSize / 512 * nr, fs.blockSize / 512));
    }

    /** None if the pointer block is not buffered and cannot be read: the code then indexes a null buffer. */
    method IndirectBlkNr(indBlkNr: nat) returns (nrBlk: Option<nat>)
      requires Mounted() && Buffers(fs, State()) && indIndex < fs.AddrPerBlock()
      modifies `buffer, `indIndex
      ensures nrBlk.None? ==> old(buffer).None? && State() == old(State())
      ensures nrBlk.Some? ==> (State(), nrBlk.value) == IndirectStep(fs, nBlock, old(State()), indBlkNr)
    {
      if buffer.None? {
        buffer := ReadBlock(indBlkNr);
        if buffer.None? {
          return None;
        }
        nrBlk := Some(Word(fs, buffer.value, indIndex));
        var previous := indIndex;
        indIndex := indIndex + 1;
        if previous == U32(nBlock - 1) {
          buffer := None;
          indIndex := 0;
        }
      } else {
        nrBlk := Some(Word(fs, buffer.value, indIndex));
        indIndex := indIndex + 1;
        if indIndex == fs.AddrPerBlock() || indIndex == nBlock {
          buffer := None;
          indIndex := 0;
        }
      }
    }

    /** The error return is taken beyond the capacity, and when the double-indirect block is needed and cannot be
        read; everything is as before then. Only a request that has to read a pointer block can die. */
    method GetNonExtentBlk(blkIndex: nat) returns (r: Reply)
      requires Mounted() && (blkIndex < Capacity(fs) ==> InBounds(fs, State(), blkIndex))
      modifies `buffer, `indIndex, `dindirectBuf, `dindIndex
      ensures r.Died? ==> IND_BLOCK <= blkIndex < Capacity(fs) && old(buffer).None? &&
                          !Stalls(fs, lost, old(State()), blkIndex)
      ensures !r.Died? ==>
                if blkIndex < Capacity(fs) && !Stalls(fs, lost, old(State()), blkIndex) then
                  (State(), r) == (Step(fs, inode, nBlock, old(State()), blkIndex).0,
                                   Address(Step(fs, inode, nBlock, old(State()), blkIndex).1))
                else State() == old(State()) && r == Kept
    {
      if blkIndex < IND_BLOCK {
        return Address(IBlock(inode, blkIndex));
      }
      MulMono(fs.AddrPerBlock(), 0, fs.AddrPerBlock());
      if blkIndex < fs.AddrPerBlock() + IND_BLOCK {
        var nr := IndirectBlkNr(IBlock(inode, IND_BLOCK));
        return if nr.Some? then Address(nr.value) else Died;
      }
      var dindNBlk := fs.AddrPerBlock() * fs.AddrPerBlock();
      if blkIndex < dindNBlk + fs.AddrPerBlock() + IND_BLOCK {
        var nrBlk: Option<nat>;
        if dindirectBuf.None? {
          if blkIndex in lost {
            return Kept;
          }
          SectorReadIsBlock(fs, IBlock(inode, DIND_BLOCK));
          dindirectBuf := Some(ReadSectorsEx(fs.part, fs.blockSize / 512 * IBlock(inode, DIND_BLOCK),
                  fs.blockSize / 512));
          var indBlkNr := Word(fs, dindirectBuf.value, 0);
          nrBlk := IndirectBlkNr(indBlkNr);
          if nrBlk.None? {
            return Died;
          }
          if blkIndex == U32(nBlock - 1) {
            dindirectBuf := None;
            dindIndex := 0;
          }
        } else {
          var indBlkNr := Word(fs, dindirectBuf.value, dindIndex);
          nrBlk := IndirectBlkNr(indBlkNr);
          if nrBlk.None? {
            return Died;
          }
          if indIndex == fs.AddrPerBlock() - 1 {
            dindIndex := dindIndex + 1;
          }
          if blkIndex == dindNBlk + fs.AddrPerBlock() + IND_BLOCK - 1 || blkIndex == U32(nBlock - 1) {
            dindirectBuf := None;
            dindIndex := 0;
          }
        }
        return Address(nrBlk.value);
      }
      return Kept;
    }

    // ----- extent layout -----

    /** Reads a node into a newly allocated buffer; a failed read allocates nothing and returns null. */
    method ReadNode(addr: nat) returns (eh: Header)
      requires Mounted() && Conserved()
      modifies `nodeReads, `live, `peak
      ensures Conserved()
      ensures if eh == NullHeader then nodeReads == old(nodeReads) && live == old(live) && peak == old(peak)
              else eh == NodeHeader(old(nodeReads), fs.Block(addr)) && eh.id !in old(live) &&
                   nodeReads == old(nodeReads) + 1 && live == old(live) + {eh.id} &&
                   peak == Max(old(peak), |old(live)| + 1)
    {
      var node := ReadBlock(addr);
      if node.None? {
        return NullHeader;
      }
      eh := NodeHeader(nodeReads, node.value);
      nodeReads := nodeReads + 1;
      SwapBuffers(live, eh.id, {});
      live := live + {eh.id};
      peak := Max(peak, |live|);
    }

    /** `delete []` of a node buffer: only a live one may be passed. */
    method Release(id: nat)
      requires id in live && Conserved()
      modifies `live, `released
      ensures Conserved() && live == old(live) - {id} && released == old(released) + [id]
    {
      live := live - {id};
      released := released + [id];
    }

    /** `delete []` of what a header pointer of a level below the root points at, if anything. */
    method ReleaseHeader(h: Header)
      requires Conserved() && OwnIds(h) <= live
      modifies `live, `released
      ensures Conserved() && live == old(live) - OwnIds(h)
    {
      if h.NodeHeader? {
        assert h.id in OwnIds(h);
        Release(h.id);
      }
    }

    /** Reads the node of block addr and only then releases the one it displaces. */
    method ExchangeNode(addr: nat, displaced: Header) returns (eh: Header)
      requires Mounted() && Conserved() && OwnIds(displaced) <= live
      modifies `nodeReads, `live, `released, `peak
      ensures Conserved()
      ensures if eh == NullHeader then live == old(live) - OwnIds(displaced)
              else eh == NodeHeader(old(nodeReads), fs.Block(addr)) && eh.id !in old(live) &&
                   nodeReads == old(nodeReads) + 1 && live == old(live) + {eh.id} - OwnIds(displaced) &&
                   |live| <= peak == Max(old(peak), |old(live)| + 1)
    {
      hide Conserved, Mounted, Fs.Block;
      eh := ReadNode(addr);
      if eh != NullHeader {
        SwapBuffers(old(live), eh.id, OwnIds(displaced));
      }
      ReleaseHeader(displaced);
    }

    /** The read-and-replace branch of the descent: level ppos now names block addr, and the node of
        level ppos + 1 is that block. While both the new and the displaced node are allocated, `depth` + 1
        of them are exactly if every level below the root held one. When the node cannot be read its null
        header displaces the old one all the same, and the search that comes next follows it. */
    method ReplaceChild(ppos: nat, addr: nat, level: nat) returns (died: bool)
      requires Valid() && extentPath != null && ppos < Depth() && addr != 0
      modifies extentPath, `nodeReads, `live, `released, `peak
      ensures Conserved() && (died ==> extentPath[ppos + 1].pHdr == NullHeader)
      ensures !died ==>
                && Valid() && nodeReads == old(nodeReads) + 1
                && peak == Max(old(peak), |old(live)| + 1)
                && (peak == Depth() + 1 <==> old(peak) == Depth() + 1 || old(AllHeld(extentPath[..], Depth())))
                && extentPath[ppos].pHdr == old(extentPath[ppos].pHdr)
                && extentPath[ppos + 1].pHdr == NodeHeader(old(nodeReads), fs.Block(addr))
    {
      hide PathOk, AllHeld, OwnIds, Conserved, Fs.Block, CursorBlockCount, RootDepth;
      ghost var before, live0 := extentPath[..], live;
      LevelBelow(fs, before, Depth(), live, ppos);
      extentPath[ppos] := extentPath[ppos].(pBlock := addr, pExt := None, pDepth := level);
      var eh := ExchangeNode(addr, extentPath[ppos + 1].pHdr);
      extentPath[ppos + 1] := extentPath[ppos + 1].(pHdr := eh);
      if eh == NullHeader {
        return true;
      }
      died := false;
      ReplaceKeepsPathOk(fs, before, extentPath[..], Depth(), live0, ppos, addr, eh.id);
    }

    /** One level of the descent. */
    method DescendOne(ppos: nat, blockNo: nat, level: nat) returns (died: bool)
      requires Valid() && extentPath != null && ppos < Depth()
      requires var node := HeaderBytes(inode, extentPath[ppos].pHdr);
               Fits(node) && Entries(node) > 0 && ChildOf(node, Slot(node, blockNo)) != 0
      modifies extentPath, `nodeReads, `live, `released, `peak
      ensures Conserved()
      ensures !died ==>
                var node := HeaderBytes(inode, old(extentPath[ppos].pHdr));
                Valid() && HeaderBytes(inode, extentPath[ppos + 1].pHdr) == fs.Block(ChildOf(node, Slot(node, blockNo)))
    {
      died := false;
      ghost var before := extentPath[..];
      var node := HeaderBytes(inode, extentPath[ppos].pHdr);
      var slot := BinSearch(node, blockNo);
      extentPath[ppos] := extentPath[ppos].(pIdx := Some(slot));
      BookkeepingKeepsPathOk(fs, before, extentPath[..], Depth(), live);
      var blockAddr := CodeAddr(LeafHi(node, slot), LeafLo(node, slot));
      if blockAddr != extentPath[ppos].pBlock {
        died := ReplaceChild(ppos, blockAddr, level);
      } else {
        assert ChildCached(fs, extentPath[..][ppos], extentPath[..][ppos + 1]);
      }
    }

    /** The search in the leaf. */
    method FinishAtLeaf(blockNo: nat)
      requires Valid() && extentPath != null && Fits(HeaderBytes(inode, extentPath[Depth()].pHdr))
      modifies extentPath
      ensures Valid() && extentPath[Depth()].pHdr == old(extentPath[Depth()].pHdr)
      ensures var leaf, last := HeaderBytes(inode, extentPath[Depth()].pHdr), extentPath[Depth()];
              if Entries(leaf) == 0 then last.pExt == None
              else last.pExt == Some(Slot(leaf, blockNo)) &&
                   last.pBlock == CodeAddr(StartHi(leaf, Slot(leaf, blockNo)), StartLo(leaf, Slot(leaf, blockNo)))
    {
      ghost var before := extentPath[..];
      var ppos := Depth();
      extentPath[ppos] := extentPath[ppos].(pDepth := 0, pExt := None, pIdx := None);
      var leaf := HeaderBytes(inode, extentPath[ppos].pHdr);
      if Entries(leaf) > 0 {
        var slot := BinSearch(leaf, blockNo);
        extentPath[ppos] := extentPath[ppos].(pExt := Some(slot), pBlock :=
                CodeAddr(StartHi(leaf, slot), StartLo(leaf, slot)));
      }
      BookkeepingKeepsPathOk(fs, before, extentPath[..], Depth(), live);
    }

    /** Allocates the path on first use and points level 0 at the inode's root node. */
    method StartPath()
      requires Valid()
      modifies `extentPath, extentPath
      ensures Valid() && extentPath != null && (extentPath == old(extentPath) || fresh(extentPath))
      ensures extentPath[0].pHdr == InodeHeader
    {
      if extentPath == null {
        extentPath := new PathElem[Depth() + 2](_ => ZEROED);
        assert HeldIds(extentPath[..], Depth()) == {};
      }
      ghost var before := extentPath[..];
      extentPath[0] := extentPath[0].(pHdr := InodeHeader);
      BookkeepingKeepsPathOk(fs, before, extentPath[..], Depth(), live);
    }

    /** Walks from the inode's root node to the leaf for blockNo, reusing every cached node whose block
        number still matches, unless a node cannot be read. */
    method FindExtent(blockNo: nat) returns (died: bool)
      requires Valid() && Walkable(fs, IBlockBytes(inode), Depth(), blockNo)
      modifies `extentPath, extentPath, `nodeReads, `live, `released, `peak
      ensures Conserved() && extentPath != null && (extentPath == old(extentPath) || fresh(extentPath))
      ensures died ==> Depth() > 0
      ensures !died ==>
                Valid() &&
                var leaf, last := LeafFor(fs, IBlockBytes(inode), Depth(), blockNo), extentPath[Depth()];
                && HeaderBytes(inode, last.pHdr) == leaf
                && if Entries(leaf) == 0 then last.pExt == None
                   else last.pExt == Some(Slot(leaf, blockNo)) &&
                        last.pBlock == CodeAddr(StartHi(leaf, Slot(leaf, blockNo)), StartLo(leaf, Slot(leaf, blockNo)))
    {
      hide PathOk, Slot, ChildOf, CodeAddr, HeldIds, Key, Conserved;
      var depth := Depth();
      StartPath();
      var i, ppos := depth, 0;
      while i > 0
        invariant ppos + i == depth && extentPath != null && Valid()
        invariant extentPath == old(extentPath) || fresh(extentPath)
        invariant Walkable(fs, HeaderBytes(inode, extentPath[ppos].pHdr), i, blockNo)
        invariant LeafFor(fs, HeaderBytes(inode, extentPath[ppos].pHdr), i, blockNo) ==
                  LeafFor(fs, IBlockBytes(inode), depth, blockNo)
      {
        died := DescendOne(ppos, blockNo, i);
        if died {
          return;
        }
        ppos := ppos + 1;
        i := i - 1;
      }
      FinishAtLeaf(blockNo);
      died := false;
    }

    method GetExtentBlk(blkIndex: nat) returns (r: Reply)
      requires Valid()
      requires Magic(IBlockBytes(inode)) == EXT_MAGIC ==> Walkable(fs, IBlockBytes(inode), Depth(), blkIndex)
      modifies `extentPath, extentPath, `nodeReads, `live, `released, `peak
      ensures Conserved() && (extentPath == old(extentPath) || fresh(extentPath))
      ensures r.Died? ==> Magic(IBlockBytes(inode)) == EXT_MAGIC && Depth() > 0
      ensures !r.Died? ==> Valid()
      ensures !r.Died? ==>
                if Magic(IBlockBytes(inode)) == EXT_MAGIC then
                  var addr := ColdLookup(fs, IBlockBytes(inode), Depth(), blkIndex);
                  r == (if addr.Some? then Address(addr.value) else Kept) && extentPath != null
                else r == Kept && extentPath == old(extentPath)
    {
      hide PathOk, Slot, CodeAddr, Conserved, WellFormed, U64, Key, Le16, Walkable, LeafFor;
      if Magic(IBlockBytes(inode)) != EXT_MAGIC {
        return Kept;
      }
      var died := FindExtent(blkIndex);
      if died {
        return Died;
      }
      var last := extentPath[Depth()];
      if last.pExt == None {
        return Kept;
      }
      return Address(U64(last.pBlock + blkIndex - Key(HeaderBytes(inode, last.pHdr), last.pExt.value)));
    }

    // ----- the public interface -----

    /** Ready for request k: if the file uses the pointer layout the cursor is the one requests 0 .. k - 1
        leave behind; an extent file takes its requests in any order. */
    ghost predicate Serving(k: nat)
      reads `buffer, `indIndex, `dindirectBuf, `dindIndex, `extentPath, `nodeReads, `live, `released, `peak, extentPath
    {
      && Valid() && Readable(fs, inode, lost) && k <= FileBlockCount(fs, inode)
      && (!UsesExtents(inode) ==> extentPath == null)
      && (!UsesExtents(inode) ==> k <= Capacity(fs) && RunTo(fs, inode, nBlock, lost, k) == Some(State()))
    }

    /** A new object serves block 0. */
    lemma StartServes()
      requires Valid() && Readable(fs, inode, lost) && State() == START && extentPath == null
      ensures Serving(0)
    {
    }

    /** The physical block of logical block blkIndex: the one the file's addressing settles on, which for a
        file addressed right is the one the format maps it to, if it maps it to any. While the double-indirect
        block cannot be read there is none. */
    method GetExt2BlkNr(blkIndex: nat) returns (r: Reply)
      requires Serving(blkIndex) && blkIndex < FileBlockCount(fs, inode)
      modifies `buffer, `indIndex, `dindirectBuf, `dindIndex
      modifies `extentPath, extentPath, `nodeReads, `live, `released, `peak
      ensures Answered(fs, inode, lost, blkIndex) && (extentPath == old(extentPath) || fresh(extentPath))
      ensures Conserved()
      ensures r.Died? ==> if UsesExtents(inode) then Depth() > 0 else blkIndex >= IND_BLOCK && old(buffer).None?
      ensures !r.Died? ==> Serving(blkIndex + 1) && (UsesExtents(inode) ==> extentPath != null)
      ensures !r.Died? ==> r == if Stalled(fs, inode, lost, blkIndex) then Kept
                                else Address(Target(fs, inode, lost, blkIndex))
      ensures r.Address? && AddressedRight(fs, inode, lost) && Mapped(fs, inode, blkIndex) ==>
                r.nr == Map(fs, inode, blkIndex)
    {
      hide Mapped, Map, AddressedRight, Selected, Step, InBounds, PathOk, Conserved, ColdLookup, Selects, Capacity,
        Walkable;
      assert Answered(fs, inode, lost, blkIndex);
      if AddressedRight(fs, inode, lost) && Mapped(fs, inode, blkIndex) {
        TargetIsMap(fs, inode, lost, blkIndex);
      }
      if UsesExtents(inode) {
        ColdLookupIsSelected(fs, IBlockBytes(inode), RootDepth(inode), blkIndex);
        r := GetExtentBlk(blkIndex);
      } else {
        r := GetNonExtentBlk(blkIndex);
      }
    }

    /** Between requests at most `depth` node buffers are allocated, and never more than `depth` + 1:
        all `depth` of them exactly when every level below the root holds one. */
    lemma LiveIsBounded()
      requires Valid()
      ensures |live| <= Depth() && peak <= Depth() + 1
      ensures extentPath != null ==> (|live| == Depth() <==> AllHeld(extentPath[..], Depth()))
    {
      if extentPath != null {
        HeldIdsFull(extentPath[..], Depth());
      }
    }

    /** Below level 0 the path points at heap buffers only. */
    lemma RootNeverHeld()
      requires Valid() && extentPath != null
      ensures HeldApart(extentPath[..], 1, Depth() + 1, live)
    {
      var path := extentPath[..];
      forall j | 1 <= j <= Depth()
        ensures path[j].pHdr != InodeHeader && (path[j].pHdr.NodeHeader? ==> path[j].pHdr.id in live)
      {
        assert ChildCached(fs, path[j - 1], path[j]);
        assert path[j].pHdr.NodeHeader? ==> path[j].pHdr.id in HeldIds(path, Depth());
      }
      forall id | id in live
        ensures exists j :: 1 <= j <= Depth() + 1 && path[j].pHdr.NodeHeader? && path[j].pHdr.id == id
      {
        assert id in HeldIds(path, Depth());
      }
    }

    /** With nothing live, every buffer that was read has been released exactly once. */
    lemma AllReleased()
      requires Conserved() && live == {}
      ensures forall id: nat :: multiset(released)[id] == if id < nodeReads then 1 else 0
    {
      EachExactlyOnce(released, nodeReads);
    }

    /** The destructor's work. An extent file that was never looked up has no path array, and the code
        walks it all the same: a caller must not let that happen. Afterwards every node buffer ever
        read has been released exactly once. */
    method Flush()
      requires Valid() && (UsesExtents(inode) ==> extentPath != null)
      requires !UsesExtents(inode) ==> extentPath == null
      modifies `buffer, `indIndex, `dindirectBuf, `dindIndex, `live, `released
      ensures State() == START && live == {} && nodeReads == old(nodeReads)
      ensures forall id: nat :: multiset(released)[id] == if id < nodeReads then 1 else 0
      ensures old(released) <= released
    {
      hide Conserved, PathOk, HeldApart;
      buffer := None;
      indIndex := 0;
      dindirectBuf := None;
      dindIndex := 0;
      if UsesExtents(inode) {
        RootNeverHeld();
        var i := 1;
        while i < Depth() + 2
          invariant 1 <= i <= Depth() + 2 && Conserved() && State() == START && nodeReads == old(nodeReads)
          invariant old(released) <= released
          invariant HeldApart(extentPath[..], i, Depth() + 1, live)
        {
          HeldApartStep(extentPath[..], i, Depth() + 1, live);
          if extentPath[i].pHdr.NodeHeader? {
            Release(extentPath[i].pHdr.id);
          }
          i := i + 1;
        }
        HeldApartEnd(extentPath[..], i, Depth() + 1, live);
      }
      AllReleased();
    }
  }

  /** A duplicate-free list of the numbers below n holds each of them once. */
  lemma {:induction false} EachExactlyOnce(s: seq<nat>, n: nat)
    requires forall i, j :: 0 <= i < j < |s| ==> s[i] != s[j]
    requires forall id :: id in s <==> 0 <= id < n
    ensures forall id: nat :: multiset(s)[id] == if id < n then 1 else 0
  {
    forall id: nat
      ensures multiset(s)[id] == if id < n then 1 else 0
    {
      OccursAtMostOnce(s, id);
      assert id in multiset(s) <==> id in s;
    }
  }

  lemma {:induction false} OccursAtMostOnce(s: seq<nat>, x: nat)
    requires forall i, j :: 0 <= i < j < |s| ==> s[i] != s[j]
    ensures multiset(s)[x] <= 1
  {
    if s != [] {
      var t, last := s[..|s| - 1], s[|s| - 1];
      assert s == t + [last];
      OccursAtMostOnce(t, x);
      assert last !in t;
    }
  }
}
