/** The on-disk extent tree: node layout, its flattened meaning, the cold root-to-leaf walk and the
    binary search both levels use. */
module ExtentTree {
  import opened Bytes
  import opened Volume

  const EXT_MAGIC := 0xf30a

  // ----- node layout: a 12-byte header, then 12-byte entries -----

  function Magic(b: seq<Byte>): nat
    requires |b| >= 12
  {
    Le16(b, 0)
  }

  function Entries(b: seq<Byte>): nat
    requires |b| >= 12
  {
    Le16(b, 2)
  }

  function HeaderDepth(b: seq<Byte>): nat
    requires |b| >= 12
  {
    Le16(b, 6)
  }

  /** Every entry announced by the header lies inside the node. */
  predicate Fits(b: seq<Byte>) {
    |b| >= 12 && 12 + 12 * Entries(b) <= |b|
  }

  /** ei_block or ee_block: both are the first word of an entry. */
  function Key(b: seq<Byte>, i: nat): (r: nat)
    requires Fits(b) && i < Entries(b)
    ensures r < TWO_32
  {
    Le32(b, 12 + 12 * i)
  }

  function LeafLo(b: seq<Byte>, i: nat): nat
    requires Fits(b) && i < Entries(b)
  {
    Le32(b, 16 + 12 * i)
  }

  function LeafHi(b: seq<Byte>, i: nat): nat
    requires Fits(b) && i < Entries(b)
  {
    Le16(b, 20 + 12 * i)
  }

  function Len(b: seq<Byte>, i: nat): nat
    requires Fits(b) && i < Entries(b)
  {
    Le16(b, 16 + 12 * i)
  }

  function StartHi(b: seq<Byte>, i: nat): nat
    requires Fits(b) && i < Entries(b)
  {
    Le16(b, 18 + 12 * i)
  }

  function StartLo(b: seq<Byte>, i: nat): nat
    requires Fits(b) && i < Entries(b)
  {
    Le32(b, 20 + 12 * i)
  }

  // ----- 48-bit addresses -----

  /** `(hi << 31) << 1` computed in the 32-bit int a 16-bit field is promoted to. */
  function PromotedHigh(hi: nat): nat {
    U32(U32(hi * 0x8000_0000) * 2)
  }

  /** The address the code assembles; the two parts never overlap, so `|=` is a sum. */
  function CodeAddr(hi: nat, lo: nat): nat {
    PromotedHigh(hi) + lo
  }

  /** The address the format means. */
  function DiskAddr(hi: nat, lo: nat): nat {
    hi * TWO_32 + lo
  }

  lemma PromotedHighIsZero(hi: nat)
    ensures PromotedHigh(hi) == 0
  {
    var y := U32(hi * 0x8000_0000);
    var q := hi * 0x8000_0000 / TWO_32;
    assert hi * 0x8000_0000 == q * TWO_32 + y;
    assert y * 2 == (hi - 2 * q) * TWO_32;
    var d := hi - 2 * q;
    assert 0 <= d <= 1;
  }

  /** The shift loses the high half, so addresses come out right exactly below block 2^32. */
  lemma CodeAddrExact(hi: nat, lo: nat)
    ensures CodeAddr(hi, lo) == lo
    ensures CodeAddr(hi, lo) == DiskAddr(hi, lo) <==> hi == 0
  {
  }

  // ----- binary search over the keys of one node -----

  /** Slot chosen for block k when the candidates l..r remain; slot 0 is never compared. */
  function Search(b: seq<Byte>, k: nat, l: int, r: int): (slot: nat)
    requires Fits(b) && 1 <= l && r < Entries(b) && l <= r + 1
    ensures l - 1 <= slot <= r
    decreases r - l + 1
  {
    if l <= r then
      var m := l + (r - l) / 2;
      if k < Key(b, m) then Search(b, k, l, m - 1) else Search(b, k, m + 1, r)
    else l - 1
  }

  function Slot(b: seq<Byte>, k: nat): (slot: nat)
    requires Fits(b) && Entries(b) > 0
    ensures slot < Entries(b)
  {
    Search(b, k, 1, Entries(b) - 1)
  }

  predicate SortedKeys(b: seq<Byte>)
    requires Fits(b)
  {
    forall i, j :: 0 <= i < j < Entries(b) ==> Key(b, i) < Key(b, j)
  }

  /** In a sorted node the search stops at the last entry that does not start after k. */
  lemma {:induction false} SearchIsLastNotAfter(b: seq<Byte>, k: nat, l: int, r: int)
    requires Fits(b) && 1 <= l && r < Entries(b) && l <= r + 1 && SortedKeys(b)
    requires forall i :: 1 <= i < l ==> Key(b, i) <= k
    requires forall i :: r < i < Entries(b) ==> k < Key(b, i)
    ensures forall i :: 1 <= i <= Search(b, k, l, r) && i < Entries(b) ==> Key(b, i) <= k
    ensures forall i :: Search(b, k, l, r) < i < Entries(b) ==> k < Key(b, i)
    decreases r - l + 1
  {
    hide Key;
    if l <= r {
      var m := l + (r - l) / 2;
      if k < Key(b, m) {
        SearchIsLastNotAfter(b, k, l, m - 1);
      } else {
        SearchIsLastNotAfter(b, k, m + 1, r);
      }
    }
  }

  /** The loop both binary searches run. */
  method BinSearch(b: seq<Byte>, k: nat) returns (slot: nat)
    requires Fits(b) && Entries(b) > 0
    ensures slot == Slot(b, k)
  {
    hide Key, Le16;
    var l, r := 1, Entries(b) - 1;
    while l <= r
      invariant 1 <= l <= r + 1 && r < Entries(b)
      invariant Search(b, k, l, r) == Slot(b, k)
    {
      var m := l + (r - l) / 2;
      if k < Key(b, m) {
        r := m - 1;
      } else {
        l := m + 1;
      }
    }
    slot := l - 1;
  }

  // ----- the cold walk -----

  /** Everything a lookup of block k dereferences on its way down exists. */
  predicate Walkable(fs: Fs, b: seq<Byte>, depth: nat, k: nat)
    decreases depth
  {
    Fits(b) &&
    (depth > 0 ==>
       Entries(b) > 0 && ChildOf(b, Slot(b, k)) != 0 &&
       Walkable(fs, fs.Block(ChildOf(b, Slot(b, k))), depth - 1, k))
  }

  function ChildOf(b: seq<Byte>, i: nat): nat
    requires Fits(b) && i < Entries(b)
  {
    CodeAddr(LeafHi(b, i), LeafLo(b, i))
  }

  /** The leaf reached by a walk that caches nothing. */
  function LeafFor(fs: Fs, b: seq<Byte>, depth: nat, k: nat): (leaf: seq<Byte>)
    requires Walkable(fs, b, depth, k)
    ensures Fits(leaf)
    decreases depth
  {
    if depth == 0 then b else LeafFor(fs, fs.Block(ChildOf(b, Slot(b, k))), depth - 1, k)
  }

  /** The physical block a cold walk computes for k; None when the leaf is empty. */
  function ColdLookup(fs: Fs, b: seq<Byte>, depth: nat, k: nat): Option<nat>
    requires Walkable(fs, b, depth, k)
  {
    var leaf := LeafFor(fs, b, depth, k);
    if Entries(leaf) == 0 then None
    else
      var s := Slot(leaf, k);
      Some(U64(CodeAddr(StartHi(leaf, s), StartLo(leaf, s)) + k - Key(leaf, s)))
  }

  /** The walk ends at an extent, and the distance to it leads to no address below 0. */
  predicate Selects(fs: Fs, b: seq<Byte>, depth: nat, k: nat) {
    Walkable(fs, b, depth, k) &&
    var leaf := LeafFor(fs, b, depth, k);
    Entries(leaf) > 0 &&
    Key(leaf, Slot(leaf, k)) <= CodeAddr(StartHi(leaf, Slot(leaf, k)), StartLo(leaf, Slot(leaf, k))) + k
  }

  /** The physical block such a walk settles on, covered by the extent or not. */
  function Selected(fs: Fs, b: seq<Byte>, depth: nat, k: nat): nat
    requires Selects(fs, b, depth, k)
  {
    var leaf := LeafFor(fs, b, depth, k);
    var s := Slot(leaf, k);
    CodeAddr(StartHi(leaf, s), StartLo(leaf, s)) + k - Key(leaf, s)
  }

  lemma ColdLookupIsSelected(fs: Fs, b: seq<Byte>, depth: nat, k: nat)
    requires Selects(fs, b, depth, k) && k < TWO_32
    ensures Walkable(fs, b, depth, k) && ColdLookup(fs, b, depth, k) == Some(Selected(fs, b, depth, k))
  {
  }

  // ----- the meaning of a tree: a flat list of extents -----

  /** `written` is false for the preallocated extents whose blocks hold no data yet. */
  datatype Extent = Extent(block: nat, len: nat, start: nat, written: bool)
  {
    predicate Covers(k: nat) {
      block <= k < block + len
    }
  }

  const INIT_MAX_LEN := 0x8000

  /** Number of blocks an ee_len stands for: larger values mark an unwritten extent. */
  function BlocksIn(len: nat): nat {
    if len <= INIT_MAX_LEN then len else len - INIT_MAX_LEN
  }

  function ExtentAt(b: seq<Byte>, i: nat): Extent
    requires Fits(b) && i < Entries(b)
  {
    Extent(Key(b, i), BlocksIn(Len(b, i)), DiskAddr(StartHi(b, i), StartLo(b, i)), Len(b, i) <= INIT_MAX_LEN)
  }

  /** Upper end of the interval that entry i is responsible for. */
  function NextKey(b: seq<Byte>, i: nat, hi: nat): nat
    requires Fits(b) && i < Entries(b)
  {
    if i + 1 < Entries(b) then Key(b, i + 1) else hi
  }

  /** A well-formed tree for logical blocks [lo, hi): keys sorted, children inside their parent's
      interval, extents disjoint and not empty, no null pointer and no empty index node, and
      no node beyond block 2^32. */
  predicate WellFormed(fs: Fs, b: seq<Byte>, depth: nat, lo: nat, hi: nat)
    decreases depth
  {
    && Fits(b)
    && SortedKeys(b)
    && (forall i :: 0 <= i < Entries(b) ==> lo <= Key(b, i) < hi)
    && (if depth == 0 then
          forall i :: 0 <= i < Entries(b) ==>
            1 <= Len(b, i) && Key(b, i) + BlocksIn(Len(b, i)) <= NextKey(b, i, hi)
        else
          && Entries(b) > 0
          && forall i :: 0 <= i < Entries(b) ==>
               LeafHi(b, i) == 0 && LeafLo(b, i) != 0 &&
               WellFormed(fs, fs.Block(LeafLo(b, i)), depth - 1, Key(b, i), NextKey(b, i, hi)))
  }

  /** All extents of a tree, left to right. */
  function Flatten(fs: Fs, b: seq<Byte>, depth: nat, lo: nat, hi: nat): seq<Extent>
    requires WellFormed(fs, b, depth, lo, hi)
    decreases depth, 2, 0
  {
    FlattenFrom(fs, b, depth, lo, hi, 0)
  }

  function FlattenFrom(fs: Fs, b: seq<Byte>, depth: nat, lo: nat, hi: nat, i: nat): seq<Extent>
    requires WellFormed(fs, b, depth, lo, hi) && i <= Entries(b)
    decreases depth, 1, Entries(b) - i
  {
    if i == Entries(b) then []
    else OwnExtents(fs, b, depth, lo, hi, i) + FlattenFrom(fs, b, depth, lo, hi, i + 1)
  }

  /** The extents that entry i stands for. */
  function OwnExtents(fs: Fs, b: seq<Byte>, depth: nat, lo: nat, hi: nat, i: nat): seq<Extent>
    requires WellFormed(fs, b, depth, lo, hi) && i < Entries(b)
    decreases depth, 0, 0
  {
    if depth == 0 then [ExtentAt(b, i)]
    else Flatten(fs, fs.Block(LeafLo(b, i)), depth - 1, Key(b, i), NextKey(b, i, hi))
  }

  /** Extents lie in [lo, hi) and are listed in order without overlap. */
  predicate Ordered(f: seq<Extent>, lo: nat, hi: nat) {
    && (forall x :: 0 <= x < |f| ==> lo <= f[x].block && f[x].block + f[x].len <= hi)
    && (forall x, y :: 0 <= x < y < |f| ==> f[x].block + f[x].len <= f[y].block)
  }

  lemma OrderedConcat(f: seq<Extent>, g: seq<Extent>, lo: nat, mid: nat, mid': nat, hi: nat)
    requires Ordered(f, lo, mid) && Ordered(g, mid', hi) && lo <= mid <= mid' <= hi
    ensures Ordered(f + g, lo, hi)
  {
  }

  lemma {:induction false} FlattenFromOrdered(fs: Fs, b: seq<Byte>, depth: nat, lo: nat, hi: nat, i: nat)
    requires WellFormed(fs, b, depth, lo, hi) && i <= Entries(b)
    ensures Ordered(FlattenFrom(fs, b, depth, lo, hi, i), if i < Entries(b) then Key(b, i) else hi, hi)
    decreases depth, 1, Entries(b) - i
  {
    if i < Entries(b) {
      var next := NextKey(b, i, hi);
      FlattenFromOrdered(fs, b, depth, lo, hi, i + 1);
      OwnExtentsOrdered(fs, b, depth, lo, hi, i);
      OrderedConcat(OwnExtents(fs, b, depth, lo, hi, i), FlattenFrom(fs, b, depth, lo, hi, i + 1),
                    Key(b, i), next, next, hi);
    }
  }

  lemma {:induction false} OwnExtentsOrdered(fs: Fs, b: seq<Byte>, depth: nat, lo: nat, hi: nat, i: nat)
    requires WellFormed(fs, b, depth, lo, hi) && i < Entries(b)
    ensures Ordered(OwnExtents(fs, b, depth, lo, hi, i), Key(b, i), NextKey(b, i, hi))
    decreases depth, 0, 0
  {
    hide Le16, Le32, Fs.Block, Slot;
    if depth > 0 {
      FlattenOrdered(fs, fs.Block(LeafLo(b, i)), depth - 1, Key(b, i), NextKey(b, i, hi));
    }
  }

  /** The flattened list of a well-formed tree is sorted and its extents are pairwise disjoint. */
  lemma {:induction false} FlattenOrdered(fs: Fs, b: seq<Byte>, depth: nat, lo: nat, hi: nat)
    requires WellFormed(fs, b, depth, lo, hi)
    ensures Ordered(Flatten(fs, b, depth, lo, hi), lo, hi)
    decreases depth, 2, 0
  {
    FlattenFromOrdered(fs, b, depth, lo, hi, 0);
  }

  /** A covering extent can only come from the slot the binary search picks. */
  lemma {:induction false} CoveringIsInSlot(fs: Fs, b: seq<Byte>, depth: nat, lo: nat, hi: nat, k: nat, i: nat,
          e: Extent)
    requires WellFormed(fs, b, depth, lo, hi) && i <= Entries(b)
    requires e in FlattenFrom(fs, b, depth, lo, hi, i) && e.Covers(k)
    ensures Entries(b) > 0 && e in OwnExtents(fs, b, depth, lo, hi, Slot(b, k))
    decreases Entries(b) - i
  {
    if e in FlattenFrom(fs, b, depth, lo, hi, i + 1) {
      CoveringIsInSlot(fs, b, depth, lo, hi, k, i + 1, e);
    } else {
      assert e in OwnExtents(fs, b, depth, lo, hi, i);
      OwnExtentsOrdered(fs, b, depth, lo, hi, i);
      SlotOfInterval(b, k, i, hi);
    }
  }

  /** In a sorted node, block k inside entry i's interval makes the search choose i. */
  lemma SlotOfInterval(b: seq<Byte>, k: nat, i: nat, hi: nat)
    requires Fits(b) && SortedKeys(b) && i < Entries(b) && Key(b, i) <= k < NextKey(b, i, hi)
    ensures Slot(b, k) == i
  {
    var s := Slot(b, k);
    SearchIsLastNotAfter(b, k, 1, Entries(b) - 1);
    assert i + 1 < Entries(b) ==> k < Key(b, i + 1);
    assert forall j :: i < j < Entries(b) ==> k < Key(b, j);
  }

  /** The extent of a well-formed tree that covers k is the entry the cold walk selects. */
  lemma {:induction false} WalkFindsCovering(fs: Fs, b: seq<Byte>, depth: nat, lo: nat, hi: nat, k: nat, e: Extent)
    requires WellFormed(fs, b, depth, lo, hi)
    requires e in Flatten(fs, b, depth, lo, hi) && e.Covers(k)
    ensures Walkable(fs, b, depth, k)
    ensures var leaf := LeafFor(fs, b, depth, k);
            Entries(leaf) > 0 && e == ExtentAt(leaf, Slot(leaf, k))
    decreases depth
  {
    CoveringIsInSlot(fs, b, depth, lo, hi, k, 0, e);
    if depth > 0 {
      var s := Slot(b, k);
      CodeAddrExact(LeafHi(b, s), LeafLo(b, s));
      WalkFindsCovering(fs, fs.Block(LeafLo(b, s)), depth - 1, Key(b, s), NextKey(b, s, hi), k, e);
    }
  }

  lemma {:induction false} OwnInFlatten(fs: Fs, b: seq<Byte>, depth: nat, lo: nat, hi: nat, i: nat, j: nat, e: Extent)
    requires WellFormed(fs, b, depth, lo, hi) && j <= i < Entries(b)
    requires e in OwnExtents(fs, b, depth, lo, hi, i)
    ensures e in FlattenFrom(fs, b, depth, lo, hi, j)
    decreases i - j
  {
    hide Le16, Le32, Fs.Block, Key, NextKey, Slot, DiskAddr;
    if j < i {
      OwnInFlatten(fs, b, depth, lo, hi, i, j + 1, e);
    }
  }

  /** The extent a walk selects belongs to the tree, covering or not. */
  lemma {:induction false} SelectedIsListed(fs: Fs, b: seq<Byte>, depth: nat, lo: nat, hi: nat, k: nat)
    requires WellFormed(fs, b, depth, lo, hi)
    ensures Walkable(fs, b, depth, k)
    ensures var leaf := LeafFor(fs, b, depth, k);
            Entries(leaf) > 0 ==> ExtentAt(leaf, Slot(leaf, k)) in Flatten(fs, b, depth, lo, hi)
    decreases depth
  {
    if Entries(b) > 0 {
      var s := Slot(b, k);
      if depth > 0 {
        CodeAddrExact(LeafHi(b, s), LeafLo(b, s));
        SelectedIsListed(fs, fs.Block(LeafLo(b, s)), depth - 1, Key(b, s), NextKey(b, s, hi), k);
      }
      var leaf := LeafFor(fs, b, depth, k);
      if Entries(leaf) > 0 {
        OwnInFlatten(fs, b, depth, lo, hi, s, 0, ExtentAt(leaf, Slot(leaf, k)));
      }
    }
  }

  /** The lookup never consults extent lengths; the extent it settles on covers k exactly when some
      extent of the tree does. */
  lemma SelectedCoversExact(fs: Fs, b: seq<Byte>, depth: nat, lo: nat, hi: nat, k: nat)
    requires WellFormed(fs, b, depth, lo, hi)
    ensures Walkable(fs, b, depth, k)
    ensures var leaf := LeafFor(fs, b, depth, k);
            (Entries(leaf) > 0 && ExtentAt(leaf, Slot(leaf, k)).Covers(k)) <==>
            exists e :: e in Flatten(fs, b, depth, lo, hi) && e.Covers(k)
  {
    hide WellFormed, Flatten, Slot;
    SelectedIsListed(fs, b, depth, lo, hi, k);
    if e :| e in Flatten(fs, b, depth, lo, hi) && e.Covers(k) {
      WalkFindsCovering(fs, b, depth, lo, hi, k, e);
    }
  }
}
