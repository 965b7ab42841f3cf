/** Partition discovery: the MBR's four entries, the chain of extended boot records behind an extended
    partition, and the linked list both are collected in. */
module PartitionTable {
  import opened Bytes

  const MAGIC_NR := 0xaa55
  const LINUX_TYPE := 0x83

  /** The on-disk state a mount attempt leaves in a partition object. `Dangling` is the pointer that
      was deleted but not cleared when the superblock could not be read. */
  datatype Ext2State = NotMounted | Mounted | Dangling

  /** One partition as found on the disk; offset is in bytes. */
  datatype PartRecord = PartRecord(kind: nat, lba: nat, offset: nat, partNo: nat, primary: bool)

  /** A disk: its bytes and sector size. */
  datatype Disk = Disk(bytes: nat -> Byte, sectorSize: nat)
  {
    /** The first 512 bytes of a sector; `start` is a 32-bit sector number. */
    function Sector(start: nat): (s: seq<Byte>)
      ensures |s| == 512
    {
      seq(512, i requires 0 <= i => bytes(U32(start) * sectorSize + i))
    }

    /** The same without the 32-bit limit. */
    function TrueSector(start: nat): (s: seq<Byte>)
      ensures |s| == 512
    {
      seq(512, i requires 0 <= i => bytes(start * sectorSize + i))
    }
  }

  predicate Signed(s: seq<Byte>)
    requires |s| == 512
  {
    Le16(s, 510) == MAGIC_NR
  }

  /** Type and first sector of entry i of a table sector. */
  function EntryKind(s: seq<Byte>, i: nat): nat
    requires |s| == 512 && i < 4
  {
    s[446 + 16 * i + 4] as nat
  }

  function EntryLba(s: seq<Byte>, i: nat): (lba: nat)
    requires |s| == 512 && i < 4
    ensures lba < TWO_32
  {
    Le32(s, 446 + 16 * i + 8)
  }

  predicate IsExtended(kind: nat) {
    kind == 0x5 || kind == 0xf
  }

  // ----- what the code collects, in its 32-bit sector arithmetic -----

  function ByteOffset(d: Disk, sector: nat): nat {
    sector * d.sectorSize
  }

  /** The non-empty ones among the first n MBR entries: slot + 1 is the number, the offset is the LBA
      in bytes. */
  function Primaries(d: Disk, mbr: seq<Byte>, n: nat): seq<PartRecord>
    requires |mbr| == 512 && n <= 4
  {
    if n == 0 then [] else Primaries(d, mbr, n - 1) + PrimaryAt(d, mbr, n - 1)
  }

  function PrimaryAt(d: Disk, mbr: seq<Byte>, i: nat): seq<PartRecord>
    requires |mbr| == 512 && i < 4
  {
    if EntryKind(mbr, i) == 0 then []
    else [PartRecord(EntryKind(mbr, i), EntryLba(mbr, i), ByteOffset(d, EntryLba(mbr, i)), i + 1, true)]
  }

  /** First sector of the extended partition; with several, the last one counts. */
  function ExtendedBase(mbr: seq<Byte>, i: nat): Option<nat>
    requires |mbr| == 512 && i <= 4
  {
    if i == 0 then None
    else if IsExtended(EntryKind(mbr, i - 1)) then Some(EntryLba(mbr, i - 1))
    else ExtendedBase(mbr, i - 1)
  }

  /** The boot record `link` sectors into the extended partition at `ext`, as the code reads it. */
  function Ebr(d: Disk, ext: nat, link: nat): seq<Byte>
    ensures |Ebr(d, ext, link)| == 512
  {
    d.Sector(U32(ext + link))
  }

  predicate Linked(s: seq<Byte>)
    requires |s| == 512
  {
    EntryKind(s, 1) == 0x5
  }

  /** The walk over the chain is finite: `links` are the link values it follows, and it stops at a
      record that has no link or no signature. */
  predicate FiniteWalk(d: Disk, ext: nat, links: seq<nat>) {
    && |links| > 0 && links[0] == 0
    && (forall j {:trigger links[j]} :: 0 <= j < |links| - 1 ==>
          var s := Ebr(d, ext, links[j]); Signed(s) && Linked(s) && links[j + 1] == EntryLba(s, 1))
    && (var s := Ebr(d, ext, links[|links| - 1]); Signed(s) ==> !Linked(s))
  }

  function VolumeRecord(d: Disk, ext: nat, link: nat, partNo: nat): PartRecord {
    var s := Ebr(d, ext, link);
    PartRecord(EntryKind(s, 0), EntryLba(s, 0), ByteOffset(d, U32(ext + link + EntryLba(s, 0))), partNo, false)
  }

  /** What one boot record contributes: its logical volume with the given number, and a record numbered 0
      for the link, if any. */
  function EbrRecords(d: Disk, ext: nat, link: nat, partNo: nat): seq<PartRecord> {
    var s := Ebr(d, ext, link);
    [VolumeRecord(d, ext, link, partNo)]
    + if Linked(s) then
        [PartRecord(EntryKind(s, 1), EntryLba(s, 1), ByteOffset(d, U32(ext + link + EntryLba(s, 1))), 0, false)]
      else []
  }

  /** The records of the first n boot records of a chain. */
  function ChainRecords(d: Disk, ext: nat, links: seq<nat>, n: nat): seq<PartRecord>
    requires n <= |links|
  {
    if n == 0 then [] else ChainRecords(d, ext, links, n - 1) + EbrRecords(d, ext, links[n - 1], 4 + n)
  }

  /** A list continued by the records of the first n boot records. */
  function Extended(before: seq<PartRecord>, d: Disk, ext: nat, links: seq<nat>, n: nat): seq<PartRecord>
    requires n <= |links|
  {
    before + ChainRecords(d, ext, links, n)
  }

  lemma ExtendedNext(before: seq<PartRecord>, d: Disk, ext: nat, links: seq<nat>, n: nat)
    requires n < |links|
    ensures Extended(before, d, ext, links, 0) == before
    ensures Extended(before, d, ext, links, n) + EbrRecords(d, ext, links[n], 5 + n) ==
            Extended(before, d, ext, links, n + 1)
  {
  }

  lemma {:induction false} ExtendedPrefix(before: seq<PartRecord>, d: Disk, ext: nat, links: seq<nat>, n: nat, m: nat)
    requires n <= m <= |links|
    ensures Extended(before, d, ext, links, n) <= Extended(before, d, ext, links, m)
  {
    hide EbrRecords;
    if n < m {
      ExtendedPrefix(before, d, ext, links, n, m - 1);
      ExtendedNext(before, d, ext, links, m - 1);
    }
  }

  // ----- numbering -----

  /** The nonzero numbers of a list increase strictly and exceed `low`; number 0 marks links only. */
  predicate Increasing(rs: seq<PartRecord>, low: nat) {
    && (forall i :: 0 <= i < |rs| && rs[i].partNo == 0 ==> rs[i].kind == 0x5)
    && (forall i :: 0 <= i < |rs| && rs[i].partNo != 0 ==> rs[i].partNo > low)
    && (forall i, j :: 0 <= i < j < |rs| && rs[i].partNo != 0 && rs[j].partNo != 0 ==> rs[i].partNo < rs[j].partNo)
  }

  predicate AtMost(rs: seq<PartRecord>, high: nat) {
    forall i :: 0 <= i < |rs| ==> rs[i].partNo <= high
  }

  lemma IncreasingConcat(a: seq<PartRecord>, b: seq<PartRecord>, low: nat, mid: nat)
    requires Increasing(a, low) && AtMost(a, mid) && Increasing(b, mid) && low <= mid
    ensures Increasing(a + b, low)
  {
  }

  lemma {:induction false} PrimariesNumbering(d: Disk, mbr: seq<Byte>, n: nat)
    requires |mbr| == 512 && n <= 4
    ensures Increasing(Primaries(d, mbr, n), 0) && AtMost(Primaries(d, mbr, n), n)
  {
    if n > 0 {
      PrimariesNumbering(d, mbr, n - 1);
      IncreasingConcat(Primaries(d, mbr, n - 1), PrimaryAt(d, mbr, n - 1), 0, n - 1);
    }
  }

  lemma {:induction false} ChainNumbering(d: Disk, ext: nat, links: seq<nat>, n: nat)
    requires n <= |links|
    ensures Increasing(ChainRecords(d, ext, links, n), 4) && AtMost(ChainRecords(d, ext, links, n), 4 + n)
  {
    if n > 0 {
      ChainNumbering(d, ext, links, n - 1);
      IncreasingConcat(ChainRecords(d, ext, links, n - 1), EbrRecords(d, ext, links[n - 1], 4 + n), 4, 3 + n);
    }
  }

  /** Along the whole list the nonzero numbers strictly increase. */
  lemma NumberingIncreases(d: Disk, mbr: seq<Byte>, ext: nat, links: seq<nat>, n: nat)
    requires |mbr| == 512 && n <= |links|
    ensures Increasing(Primaries(d, mbr, 4) + ChainRecords(d, ext, links, n), 0)
  {
    PrimariesNumbering(d, mbr, 4);
    ChainNumbering(d, ext, links, n);
    IncreasingConcat(Primaries(d, mbr, 4), ChainRecords(d, ext, links, n), 0, 4);
  }

  // ----- what the format says -----

  /** The boot record `link` sectors into the extended partition at `ext`. */
  function TrueEbr(d: Disk, ext: nat, link: nat): (s: seq<Byte>)
    ensures |s| == 512
  {
    d.TrueSector(ext + link)
  }

  /** A second entry of either extended type is a link. */
  predicate FormatLinked(s: seq<Byte>)
    requires |s| == 512
  {
    IsExtended(EntryKind(s, 1))
  }

  /** The chain of boot records: signed, and linked up to the last one. */
  predicate FormatChain(d: Disk, ext: nat, links: seq<nat>) {
    && |links| > 0 && links[0] == 0
    && forall j {:trigger links[j]} :: 0 <= j < |links| ==>
         var s := TrueEbr(d, ext, links[j]);
         && Signed(s) && (FormatLinked(s) <==> j + 1 < |links|)
         && (j + 1 < |links| ==> links[j + 1] == EntryLba(s, 1))
  }

  /** Boot record j describes no volume. */
  predicate NoVolume(d: Disk, ext: nat, links: seq<nat>, j: nat)
    requires j < |links|
  {
    EntryKind(TrueEbr(d, ext, links[j]), 0) == 0
  }

  /** Where logical volume j starts. */
  function VolumeStart(d: Disk, ext: nat, links: seq<nat>, j: nat): nat
    requires j < |links|
  {
    ext + links[j] + EntryLba(TrueEbr(d, ext, links[j]), 0)
  }

  function FormatVolume(d: Disk, ext: nat, links: seq<nat>, j: nat, partNo: nat): PartRecord
    requires j < |links|
  {
    var s := TrueEbr(d, ext, links[j]);
    PartRecord(EntryKind(s, 0), EntryLba(s, 0), VolumeStart(d, ext, links, j) * d.sectorSize, partNo, false)
  }

  /** The logical volumes of the first n boot records, numbered from 5. */
  function FormatVolumes(d: Disk, ext: nat, links: seq<nat>, n: nat): seq<PartRecord>
    requires n <= |links|
  {
    if n == 0 then []
    else
      var vs := FormatVolumes(d, ext, links, n - 1);
      vs + if NoVolume(d, ext, links, n - 1) then [] else [FormatVolume(d, ext, links, n - 1, 5 + |vs|)]
  }

  /** Slot i of a master boot record: the type is byte 4 of the 16 bytes from 446 + 16 * i on, the first sector its
      bytes 8 to 11. */
  function SlotKind(mbr: seq<Byte>, i: nat): nat
    requires |mbr| == 512 && i < 4
  {
    mbr[450 + 16 * i] as nat
  }

  function SlotSector(mbr: seq<Byte>, i: nat): nat
    requires |mbr| == 512 && i < 4
  {
    Le32(mbr, 454 + 16 * i)
  }

  /** The partition of a slot. */
  function SlotRecord(d: Disk, mbr: seq<Byte>, i: nat): PartRecord
    requires |mbr| == 512 && i < 4
  {
    PartRecord(SlotKind(mbr, i), SlotSector(mbr, i), SlotSector(mbr, i) * d.sectorSize, i + 1, true)
  }

  /** The primary partitions: those of the slots that are in use. */
  function FormatPrimaries(d: Disk, mbr: seq<Byte>): seq<PartRecord>
    requires |mbr| == 512
  {
    var slot := (i: nat) requires i < 4 => if SlotKind(mbr, i) == 0 then [] else [SlotRecord(d, mbr, i)];
    slot(0) + slot(1) + slot(2) + slot(3)
  }

  /** Slot i is the extended partition: the last one of type 0x5 or 0xf. */
  predicate IsExtendedSlot(mbr: seq<Byte>, i: nat)
    requires |mbr| == 512 && i < 4
  {
    SlotKind(mbr, i) in {0x5, 0xf} && forall j :: i < j < 4 ==> SlotKind(mbr, j) !in {0x5, 0xf}
  }

  /** First sector of the extended partition. */
  ghost function FormatBase(mbr: seq<Byte>): Option<nat>
    requires |mbr| == 512
  {
    if i: nat :| i < 4 && IsExtendedSlot(mbr, i) then Some(SlotSector(mbr, i)) else None
  }

  /** The partitions of a disk whose chain has the given links. */
  ghost function FormatRecords(d: Disk, links: seq<nat>): seq<PartRecord> {
    var mbr := d.TrueSector(0);
    FormatPrimaries(d, mbr) +
    if FormatBase(mbr).Some? then FormatVolumes(d, FormatBase(mbr).value, links, |links|) else []
  }

  /** How many boot records there are up to the first one whose link, if it has one, is not of type 0x5. */
  function Visited(d: Disk, ext: nat, links: seq<nat>, j: nat): (v: nat)
    requires j < |links|
    ensures j < v <= |links|
    ensures forall i :: j <= i < v - 1 ==> Linked(TrueEbr(d, ext, links[i]))
    ensures v < |links| ==> !Linked(TrueEbr(d, ext, links[v - 1]))
    decreases |links| - j
  {
    if j + 1 == |links| || !Linked(TrueEbr(d, ext, links[j])) then j + 1 else Visited(d, ext, links, j + 1)
  }

  /** Of the boot records up to the first link that is not of type 0x5, all describe a volume that starts below
      sector 2^32, and the others describe none. */
  predicate Collectable(d: Disk, ext: nat, links: seq<nat>)
    requires |links| > 0
  {
    var v := Visited(d, ext, links, 0);
    && (forall j :: 0 <= j < v ==> !NoVolume(d, ext, links, j) && VolumeStart(d, ext, links, j) < TWO_32)
    && (forall j :: v <= j < |links| ==> NoVolume(d, ext, links, j))
  }

  /** No boot record without a volume lies behind sector 2^32, where the code reads another sector instead. */
  predicate EmptyOnesInReach(d: Disk, ext: nat, links: seq<nat>) {
    forall j :: 0 <= j < |links| && NoVolume(d, ext, links, j) ==> ext + links[j] < TWO_32
  }

  /** The numbered records: link records drop out. */
  function Numbered(rs: seq<PartRecord>): seq<PartRecord> {
    if rs == [] then []
    else Numbered(rs[..|rs| - 1]) + if rs[|rs| - 1].partNo != 0 then [rs[|rs| - 1]] else []
  }

  lemma {:induction false} NumberedConcat(a: seq<PartRecord>, b: seq<PartRecord>)
    ensures Numbered(a + b) == Numbered(a) + Numbered(b)
    decreases |b|
  {
    if b == [] {
      assert a + b == a;
    } else {
      assert (a + b)[..|a + b| - 1] == a + b[..|b| - 1];
      NumberedConcat(a, b[..|b| - 1]);
    }
  }

  lemma {:induction false} NumberedPrimaries(d: Disk, mbr: seq<Byte>, n: nat)
    requires |mbr| == 512 && n <= 4
    ensures Numbered(Primaries(d, mbr, n)) == Primaries(d, mbr, n)
  {
    if n > 0 {
      hide EntryKind, EntryLba;
      NumberedPrimaries(d, mbr, n - 1);
      NumberedConcat(Primaries(d, mbr, n - 1), PrimaryAt(d, mbr, n - 1));
      var last := PrimaryAt(d, mbr, n - 1);
      assert last != [] ==> last[..|last| - 1] == [];
    }
  }

  lemma NumberedEbr(d: Disk, ext: nat, link: nat, partNo: nat)
    requires partNo > 0
    ensures Numbered(EbrRecords(d, ext, link, partNo)) == [VolumeRecord(d, ext, link, partNo)]
  {
    hide EntryKind, EntryLba, VolumeRecord, Ebr, Linked, ByteOffset;
    var rs := EbrRecords(d, ext, link, partNo);
    var v := VolumeRecord(d, ext, link, partNo);
    VolumeIsNumbered(d, ext, link, partNo);
    assert [v][..0] == [];
    assert Numbered([v]) == [v];
    assert |rs| == 2 ==> rs[..1] == [v];
  }

  lemma VolumeIsNumbered(d: Disk, ext: nat, link: nat, partNo: nat)
    ensures VolumeRecord(d, ext, link, partNo).partNo == partNo
  {
  }

  lemma NothingNumbered()
    ensures Numbered([]) == []
  {
  }

  /** The logical volumes the code collects from the first n boot records. */
  lemma {:induction false} NumberedChain(d: Disk, ext: nat, links: seq<nat>, n: nat)
    requires n <= |links|
    ensures var vs := Numbered(ChainRecords(d, ext, links, n));
            |vs| == n && forall j :: 0 <= j < n ==> vs[j] == VolumeRecord(d, ext, links[j], 5 + j)
  {
    hide EbrRecords, VolumeRecord, Numbered;
    NothingNumbered();
    if n > 0 {
      NumberedChain(d, ext, links, n - 1);
      NumberedConcat(ChainRecords(d, ext, links, n - 1), EbrRecords(d, ext, links[n - 1], 4 + n));
      NumberedEbr(d, ext, links[n - 1], 4 + n);
    }
  }

  /** The unsigned sum of a logical volume's position is the true one exactly below 2^32 sectors. */
  lemma LogicalOffsetExact(ext: nat, link: nat, lba: nat, sectorSize: nat)
    requires sectorSize > 0
    ensures U32(ext + link + lba) * sectorSize == (ext + link + lba) * sectorSize <==> ext + link + lba < TWO_32
  {
  }

  lemma EbrIsTrue(d: Disk, ext: nat, link: nat)
    requires ext + link < TWO_32
    ensures Ebr(d, ext, link) == TrueEbr(d, ext, link)
  {
  }

  lemma ChainAt(d: Disk, ext: nat, chain: seq<nat>, j: nat)
    requires FormatChain(d, ext, chain) && j < |chain|
    ensures chain[0] == 0 && Signed(TrueEbr(d, ext, chain[j]))
    ensures Linked(TrueEbr(d, ext, chain[j])) ==> j + 1 < |chain|
    ensures j + 1 < |chain| ==> chain[j + 1] == EntryLba(TrueEbr(d, ext, chain[j]), 1)
  {
  }

  /** While positions fit in 32 bits and links are of type 0x5 the code reads the boot records of the format's
      chain. */
  lemma {:induction false} SameWalk(d: Disk, ext: nat, links: seq<nat>, chain: seq<nat>, j: nat)
    requires FiniteWalk(d, ext, links) && FormatChain(d, ext, chain) && j < Visited(d, ext, chain, 0)
    requires forall i :: 0 <= i < j ==> VolumeStart(d, ext, chain, i) < TWO_32
    ensures j < |links| && links[j] == chain[j]
    ensures VolumeStart(d, ext, chain, j) < TWO_32 ==> (j + 1 == Visited(d, ext, chain, 0) <==> j + 1 == |links|)
  {
    hide Signed, EntryKind, EntryLba, Linked, FiniteWalk, FormatChain, Ebr, TrueEbr, Visited;
    WalkStart(d, ext, links);
    ChainAt(d, ext, chain, j);
    if j > 0 {
      SameWalk(d, ext, links, chain, j - 1);
      ChainAt(d, ext, chain, j - 1);
      assert VolumeStart(d, ext, chain, j - 1) < TWO_32;
      EbrIsTrue(d, ext, chain[j - 1]);
      WalkAt(d, ext, links, j - 1);
    }
    if VolumeStart(d, ext, chain, j) < TWO_32 {
      EbrIsTrue(d, ext, chain[j]);
      WalkAt(d, ext, links, j);
    }
  }

  /** The first volumes stay what they are, and none is an empty entry. */
  lemma {:induction false} VolumesGrow(d: Disk, ext: nat, chain: seq<nat>, n: nat, m: nat)
    requires n <= m <= |chain|
    ensures FormatVolumes(d, ext, chain, n) <= FormatVolumes(d, ext, chain, m)
    ensures (forall j :: n <= j < m ==> NoVolume(d, ext, chain, j)) <==>
            |FormatVolumes(d, ext, chain, n)| == |FormatVolumes(d, ext, chain, m)|
    ensures forall i :: 0 <= i < |FormatVolumes(d, ext, chain, m)| ==> FormatVolumes(d, ext, chain, m)[i].kind != 0
  {
    hide EntryKind, EntryLba, TrueEbr;
    if n < m {
      VolumesGrow(d, ext, chain, n, m - 1);
    } else if n > 0 {
      VolumesGrow(d, ext, chain, n - 1, m - 1);
    }
  }

  /** As long as every boot record has a volume, volume j belongs to boot record j. */
  lemma {:induction false} VolumesInStep(d: Disk, ext: nat, chain: seq<nat>, n: nat)
    requires n <= |chain| && forall j :: 0 <= j < n ==> !NoVolume(d, ext, chain, j)
    ensures |FormatVolumes(d, ext, chain, n)| == n
    ensures forall j :: 0 <= j < n ==> FormatVolumes(d, ext, chain, n)[j] == FormatVolume(d, ext, chain, j, 5 + j)
  {
    hide EntryKind, EntryLba, TrueEbr, FormatVolume;
    if n > 0 {
      VolumesInStep(d, ext, chain, n - 1);
    }
  }

  /** Collected and meant volume of boot record j. */
  lemma SameVolume(d: Disk, ext: nat, chain: seq<nat>, j: nat)
    requires d.sectorSize > 0 && j < |chain|
    ensures VolumeRecord(d, ext, chain[j], 5 + j) == FormatVolume(d, ext, chain, j, 5 + j) ==>
              VolumeStart(d, ext, chain, j) < TWO_32
    ensures VolumeStart(d, ext, chain, j) < TWO_32 ==>
              VolumeRecord(d, ext, chain[j], 5 + j) == FormatVolume(d, ext, chain, j, 5 + j)
    ensures ext + chain[j] < TWO_32 ==>
            (VolumeRecord(d, ext, chain[j], 5 + j).kind == 0 <==> NoVolume(d, ext, chain, j))
  {
    hide EntryKind, EntryLba, Ebr, TrueEbr;
    var lba := EntryLba(Ebr(d, ext, chain[j]), 0);
    MulMono(d.sectorSize, U32(ext + chain[j] + lba), VolumeStart(d, ext, chain, j));
    if ext + chain[j] < TWO_32 {
      EbrIsTrue(d, ext, chain[j]);
    }
  }

  /** If the lists agree, so do the walks up to the first link of another type. */
  lemma {:induction false} AgreeingWalk(d: Disk, ext: nat, links: seq<nat>, chain: seq<nat>, n: nat)
    requires d.sectorSize > 0 && FiniteWalk(d, ext, links) && FormatChain(d, ext, chain)
    requires EmptyOnesInReach(d, ext, chain) && |chain| > 0 && n <= Visited(d, ext, chain, 0)
    requires Numbered(ChainRecords(d, ext, links, |links|)) == FormatVolumes(d, ext, chain, |chain|)
    ensures forall j :: 0 <= j < n ==> !NoVolume(d, ext, chain, j) && VolumeStart(d, ext, chain, j) < TWO_32
  {
    hide FiniteWalk, FormatChain, ChainRecords, Numbered, Visited, NoVolume, VolumeRecord, FormatVolume, VolumeStart,
      FormatVolumes;
    if n > 0 {
      var j := n - 1;
      AgreeingWalk(d, ext, links, chain, j);
      SameWalk(d, ext, links, chain, j);
      NumberedChain(d, ext, links, |links|);
      VolumesInStep(d, ext, chain, j);
      VolumesGrow(d, ext, chain, j, |chain|);
      SameVolume(d, ext, chain, j);
      if !NoVolume(d, ext, chain, j) {
        VolumesInStep(d, ext, chain, n);
        VolumesGrow(d, ext, chain, n, |chain|);
      }
    }
  }

  /** The code's logical volumes are the format's exactly when they are all found before the first link that is
      not of type 0x5, none of the boot records up to there is without a volume, and all positions are below
      sector 2^32. */
  lemma VolumesExact(d: Disk, ext: nat, links: seq<nat>, chain: seq<nat>)
    requires d.sectorSize > 0 && FiniteWalk(d, ext, links) && FormatChain(d, ext, chain)
    requires EmptyOnesInReach(d, ext, chain)
    ensures |chain| > 0
    ensures Numbered(ChainRecords(d, ext, links, |links|)) == FormatVolumes(d, ext, chain, |chain|) <==>
            Collectable(d, ext, chain)
  {
    hide FiniteWalk, FormatChain, ChainRecords, Numbered, Visited, NoVolume, VolumeRecord, FormatVolume, VolumeStart,
      FormatVolumes, EmptyOnesInReach;
    ChainNotEmpty(d, ext, chain);
    NumberedChain(d, ext, links, |links|);
    var v := Visited(d, ext, chain, 0);
    var vs, fs := Numbered(ChainRecords(d, ext, links, |links|)), FormatVolumes(d, ext, chain, |chain|);
    if vs == fs {
      AgreeingWalk(d, ext, links, chain, v);
    }
    if forall j :: 0 <= j < v ==> !NoVolume(d, ext, chain, j) && VolumeStart(d, ext, chain, j) < TWO_32 {
      SameWalk(d, ext, links, chain, v - 1);
      VolumesInStep(d, ext, chain, v);
      VolumesGrow(d, ext, chain, v, |chain|);
      forall j | 0 <= j < v
        ensures vs[j] == FormatVolumes(d, ext, chain, v)[j]
      {
        SameWalk(d, ext, links, chain, j);
        SameVolume(d, ext, chain, j);
      }
    }
  }

  lemma ChainNotEmpty(d: Disk, ext: nat, chain: seq<nat>)
    requires FormatChain(d, ext, chain)
    ensures |chain| > 0
  {
  }

  /** The chain of a disk, if it has one. */
  ghost predicate DiskChain(d: Disk, chain: seq<nat>) {
    var ext := FormatBase(d.TrueSector(0));
    ext.Some? ==> FormatChain(d, ext.value, chain) && EmptyOnesInReach(d, ext.value, chain)
  }

  ghost predicate DiskCollectable(d: Disk, chain: seq<nat>) {
    var ext := FormatBase(d.TrueSector(0));
    ext.Some? ==> |chain| > 0 && Collectable(d, ext.value, chain)
  }

  /** The numbered records collected from a disk are the partitions the format lists exactly under that condition
      on its chain, if it has one. */
  lemma ListExact(d: Disk, links: seq<nat>, chain: seq<nat>)
    requires d.sectorSize > 0 && Walkable(d, links) && DiskChain(d, chain)
    ensures Numbered(AllRecords(d, links)) == FormatRecords(d, chain) <==> DiskCollectable(d, chain)
  {
    hide FiniteWalk, FormatChain, ChainRecords, Primaries, Collectable, EmptyOnesInReach, FormatVolumes, Disk.Sector,
      Disk.TrueSector, Numbered, ExtendedBase, FormatPrimaries, FormatBase;
    FirstSector(d);
    var mbr := d.Sector(0);
    PrimariesAreFormats(d, mbr);
    var primaries := Primaries(d, mbr, 4);
    NumberedPrimaries(d, mbr, 4);
    if ExtendedBase(mbr, 4).Some? {
      var ext := ExtendedBase(mbr, 4).value;
      var chained := ChainRecords(d, ext, links, |links|);
      VolumesExact(d, ext, links, chain);
      NumberedConcat(primaries, chained);
      SamePrefix(primaries, Numbered(chained), FormatVolumes(d, ext, chain, |chain|));
    } else {
      assert primaries + [] == primaries;
    }
  }

  /** An extended partition without volumes is collected as a volume of type 0 all the same, and a link of the
      other extended type ends the walk. */
  lemma EmptyAndOtherLinks(d: Disk, ext: nat, links: seq<nat>, chain: seq<nat>)
    requires d.sectorSize > 0 && FiniteWalk(d, ext, links) && FormatChain(d, ext, chain)
    requires EmptyOnesInReach(d, ext, chain)
    ensures |chain| > 0 && |links| > 0
    ensures |chain| == 1 && NoVolume(d, ext, chain, 0) ==>
              FormatVolumes(d, ext, chain, 1) == [] && Numbered(ChainRecords(d, ext, links, |links|)) != []
    ensures EntryKind(TrueEbr(d, ext, chain[0]), 1) == 0xf && ext < TWO_32 ==> |links| == 1 < |chain|
  {
    hide ChainRecords, Numbered, EntryLba, Ebr, TrueEbr, Signed;
    ChainNotEmpty(d, ext, chain);
    NumberedChain(d, ext, links, |links|);
    EbrIsTrueBelow(d, ext);
  }

  lemma EbrIsTrueBelow(d: Disk, ext: nat)
    ensures ext < TWO_32 ==> Ebr(d, ext, 0) == TrueEbr(d, ext, 0)
  {
  }

  lemma FirstSector(d: Disk)
    ensures d.Sector(0) == d.TrueSector(0)
  {
    assert U32(0) == 0;
    assert forall i :: 0 <= i < 512 ==> d.Sector(0)[i] == d.TrueSector(0)[i];
  }

  /** The MBR loop collects the primary partitions of the format, and the base it ends with is that of the extended
      partition. */
  lemma PrimariesAreFormats(d: Disk, mbr: seq<Byte>)
    requires |mbr| == 512
    ensures Primaries(d, mbr, 4) == FormatPrimaries(d, mbr)
    ensures ExtendedBase(mbr, 4) == FormatBase(mbr)
  {
    hide Le32;
    assert Primaries(d, mbr, 1) == PrimaryAt(d, mbr, 0);
    assert Primaries(d, mbr, 2) == PrimaryAt(d, mbr, 0) + PrimaryAt(d, mbr, 1);
    assert Primaries(d, mbr, 3) == PrimaryAt(d, mbr, 0) + PrimaryAt(d, mbr, 1) + PrimaryAt(d, mbr, 2);
    BaseOfExtended(mbr, 4);
  }

  lemma {:induction false} BaseOfExtended(mbr: seq<Byte>, n: nat)
    requires |mbr| == 512 && n <= 4
    requires forall j :: n <= j < 4 ==> SlotKind(mbr, j) !in {0x5, 0xf}
    ensures ExtendedBase(mbr, n) == FormatBase(mbr)
  {
    hide Le32;
    if n > 0 {
      if SlotKind(mbr, n - 1) in {0x5, 0xf} {
        assert IsExtendedSlot(mbr, n - 1);
        assert forall i: nat :: i < 4 && IsExtendedSlot(mbr, i) ==> i == n - 1;
      } else {
        BaseOfExtended(mbr, n - 1);
      }
    }
  }

  /** Whatever the chain adds, the primary records of a disk are exactly those of its slots in use, each once. */
  lemma PrimaryRecordsExact(d: Disk, links: seq<nat>)
    ensures var mbr, rs := d.Sector(0), AllRecords(d, links);
            && (forall i :: 0 <= i < 4 && SlotKind(mbr, i) != 0 ==> SlotRecord(d, mbr, i) in rs)
            && (forall x :: 0 <= x < |rs| && rs[x].primary ==>
                  exists i :: 0 <= i < 4 && SlotKind(mbr, i) != 0 && rs[x] == SlotRecord(d, mbr, i))
            && (forall x, y :: 0 <= x < y < |rs| && rs[x].primary && rs[y].primary ==> rs[x] != rs[y])
  {
    hide EntryKind, EntryLba, SlotKind, SlotSector, Disk.Sector, ExtendedBase, FormatBase;
    var mbr := d.Sector(0);
    PrimariesAreFormats(d, mbr);
    SlotsInUse(d, mbr);
    if ExtendedBase(mbr, 4).Some? {
      ChainIsLogical(d, ExtendedBase(mbr, 4).value, links, |links|);
    }
  }

  lemma SlotsInUse(d: Disk, mbr: seq<Byte>)
    requires |mbr| == 512
    ensures var rs := FormatPrimaries(d, mbr);
            && (forall i :: 0 <= i < 4 && SlotKind(mbr, i) != 0 ==> SlotRecord(d, mbr, i) in rs)
            && (forall x :: 0 <= x < |rs| ==>
                  exists i :: 0 <= i < 4 && SlotKind(mbr, i) != 0 && rs[x] == SlotRecord(d, mbr, i))
            && (forall x, y :: 0 <= x < y < |rs| ==> rs[x] != rs[y])
  {
    hide SlotKind, SlotSector;
  }

  lemma {:induction false} ChainIsLogical(d: Disk, ext: nat, links: seq<nat>, n: nat)
    requires n <= |links|
    ensures forall x :: 0 <= x < |ChainRecords(d, ext, links, n)| ==> !ChainRecords(d, ext, links, n)[x].primary
  {
    hide EntryKind, EntryLba, Ebr, Linked, ByteOffset;
    if n > 0 {
      ChainIsLogical(d, ext, links, n - 1);
    }
  }

  lemma SamePrefix(p: seq<PartRecord>, a: seq<PartRecord>, b: seq<PartRecord>)
    ensures p + a == p + b <==> a == b
  {
    assert (p + a)[|p|..] == a && (p + b)[|p|..] == b;
  }

  /** The link record of a boot record carries the offset of `link` too much: it stands for the next boot record,
      which lies at ext + lba, only in the first boot record. */
  lemma LinkOffsetExact(d: Disk, ext: nat, link: nat, partNo: nat)
    requires d.sectorSize > 0 && link < TWO_32 && Linked(Ebr(d, ext, link))
    ensures var rs, lba := EbrRecords(d, ext, link, partNo), EntryLba(Ebr(d, ext, link), 1);
            && |rs| == 2 && rs[1].partNo == 0 && rs[1].kind == 0x5 && rs[1].lba == lba && !rs[1].primary
            && (rs[1].offset == (ext + lba) * d.sectorSize <==> link == 0 && ext + lba < TWO_32)
  {
    hide Disk.Sector, EntryLba;
    var lba := EntryLba(Ebr(d, ext, link), 1);
    SumOffsetExact(ext, link, lba, d.sectorSize);
  }

  lemma SumOffsetExact(ext: nat, link: nat, lba: nat, sectorSize: nat)
    requires sectorSize > 0 && link < TWO_32
    ensures U32(ext + link + lba) * sectorSize == (ext + lba) * sectorSize <==> link == 0 && ext + lba < TWO_32
  {
    MulMono(sectorSize, U32(ext + link + lba), ext + lba);
    MulMono(sectorSize, ext + lba, U32(ext + link + lba));
  }

  // ----- the linked list -----

  class Partition {
    const rec: PartRecord
    var ext2: Ext2State

    constructor (rec: PartRecord)
      ensures this.rec == rec && ext2 == NotMounted
    {
      this.rec := rec;
      ext2 := NotMounted;
    }
  }

  class PartitionList {
    var p: Partition?
    var next: PartitionList?
    /** The nodes and the partitions of the list that starts here. */
    ghost var spine: seq<PartitionList>
    ghost var parts: seq<Partition>

    ghost predicate Valid()
      reads this, spine
      ensures Valid() ==> |spine| > 0 && spine[0] == this
    {
      && |spine| > 0 && spine[0] == this
      && (forall i, j :: 0 <= i < j < |spine| ==> spine[i] != spine[j])
      && (forall i {:trigger spine[i].next} :: 0 <= i < |spine| - 1 ==> spine[i].next == spine[i + 1])
      && spine[|spine| - 1].next == null
      && (if p == null then |spine| == 1 && parts == []
          else |parts| == |spine| && forall i :: 0 <= i < |spine| ==> spine[i].p == parts[i])
      && (forall i, j :: 0 <= i < j < |parts| ==> parts[i] != parts[j])
    }

    constructor ()
      ensures Valid() && parts == [] && spine == [this]
    {
      p, next := null, null;
      spine, parts := [this], [];
    }

    /** Node k of a non-empty list: its partition and its successor. */
    lemma NodeAt(k: nat)
      requires Valid() && parts != [] && k < |parts|
      ensures |spine| == |parts| && spine[k].p == parts[k] &&
              spine[k].next == if k + 1 < |parts| then spine[k + 1] else null
      ensures forall j :: 0 <= j < |parts| && j != k ==> parts[j] != parts[k]
    {
    }

    /** Appends a copy of the record as a new, unmounted partition object. */
    method AddPart(newPart: PartRecord) returns (ghost added: Partition)
      requires Valid()
      modifies this, spine
      ensures Valid() && |spine| > 0 && old(spine) <= spine && (forall n :: n in spine ==> n in old(spine) || fresh(n))
      ensures parts == old(parts) + [added] && fresh(added) && added.rec == newPart && added.ext2 == NotMounted
    {
      var partTmp := new Partition(newPart);
      added := partTmp;
      if p == null {
        p := partTmp;
        next := null;
        parts := [partTmp];
      } else {
        var pNext: PartitionList?, pPrev := this, this;
        ghost var i := 0;
        while pNext != null
          invariant 0 <= i <= |spine| && pNext == (if i < |spine| then spine[i] else null)
          invariant pPrev == spine[if i == 0 then 0 else i - 1]
          decreases |spine| - i
        {
          assert spine[i].next == if i + 1 < |spine| then spine[i + 1] else null;
          pPrev := pNext;
          pNext := pNext.next;
          i := i + 1;
        }
        var node := new PartitionList();
        node.p := partTmp;
        pPrev.next := node;
        spine := spine + [node];
        parts := parts + [partTmp];
      }
    }
  }

  // ----- building the list -----

  ghost function RecordsOf(parts: seq<Partition>): (rs: seq<PartRecord>)
    ensures |rs| == |parts|
  {
    seq(|parts|, i requires 0 <= i < |parts| => parts[i].rec)
  }

  lemma RecordsAppend(parts: seq<Partition>, q: Partition)
    ensures RecordsOf(parts + [q]) == RecordsOf(parts) + [q.rec]
  {
  }

  /** All records collected from a disk on which the code follows the given links. */
  function AllRecords(d: Disk, links: seq<nat>): seq<PartRecord> {
    var mbr := d.Sector(0);
    Primaries(d, mbr, 4) +
    if ExtendedBase(mbr, 4).Some? then ChainRecords(d, ExtendedBase(mbr, 4).value, links, |links|) else []
  }

  /** Walking the disk's partition tables ends. */
  predicate Walkable(d: Disk, links: seq<nat>) {
    ExtendedBase(d.Sector(0), 4).Some? ==> FiniteWalk(d, ExtendedBase(d.Sector(0), 4).value, links)
  }

  /** The master boot record is signed, and so is the boot record the walk ends with. */
  predicate AllSigned(d: Disk, links: seq<nat>)
    requires Walkable(d, links)
  {
    var mbr := d.Sector(0);
    Signed(mbr) && (ExtendedBase(mbr, 4).Some? ==> Signed(Ebr(d, ExtendedBase(mbr, 4).value, links[|links| - 1])))
  }

  class HardDisk {
    const d: Disk
    var partitions: PartitionList?
    /** How many sector reads have failed. */
    var readFailures: nat

    constructor (d: Disk)
      ensures this.d == d && partitions == null && readFailures == 0
    {
      this.d := d;
      partitions := null;
      readFailures := 0;
    }

    /** A well-formed list of partitions nobody has tried to mount yet. */
    ghost predicate Valid()
      reads `partitions, partitions, Nodes(), Parts()
    {
      && (partitions != null ==> partitions.Valid() && partitions.parts != [])
      && (forall q :: q in Parts() ==> q.ext2 == NotMounted)
    }

    ghost function Nodes(): set<PartitionList>
      reads `partitions, partitions
    {
      if partitions == null then {} else set n | n in partitions.spine
    }

    ghost function Parts(): seq<Partition>
      reads `partitions, partitions
    {
      if partitions == null then [] else partitions.parts
    }

    method ReadSectorsData(start: nat) returns (r: Option<seq<Byte>>)
      modifies `readFailures
      ensures r.Some? ==> r.value == d.Sector(start)
      ensures readFailures == old(readFailures) + if r.None? then 1 else 0
    {
      var fail: bool := *;
      if fail {
        readFailures := readFailures + 1;
        return None;
      }
      return Some(d.Sector(start));
    }

    /** Adds one record, creating the list for the first. */
    method AddRecord(rec: PartRecord)
      requires Valid()
      modifies `partitions, Nodes()
      ensures Valid() && partitions != null && fresh(Nodes() - old(Nodes()))
      ensures forall q :: q in Parts() ==> q in old(Parts()) || fresh(q)
      ensures RecordsOf(Parts()) == RecordsOf(old(Parts())) + [rec]
    {
      hide PartitionList.Valid, RecordsOf;
      if partitions == null {
        partitions := new PartitionList();
      }
      ghost var before := partitions.parts;
      ghost var added := partitions.AddPart(rec);
      RecordsAppend(before, added);
    }

    lemma EmptyDisk()
      requires partitions == null
      ensures Valid() && Parts() == [] && Nodes() == {}
    {
    }

    method Discard()
      modifies `partitions
      ensures partitions == null && Valid() && Nodes() == {}
    {
      partitions := null;
    }

    /** One pass of the MBR loop. */
    method AddPrimary(mbr: seq<Byte>, i: nat, n: nat)
      requires Valid() && |mbr| == 512 && i < 4 && n == i + 1
      modifies `partitions, Nodes()
      ensures Valid() && fresh(Nodes() - old(Nodes()))
      ensures forall q :: q in Parts() ==> q in old(Parts()) || fresh(q)
      ensures RecordsOf(Parts()) == RecordsOf(old(Parts())) + PrimaryAt(d, mbr, i)
      ensures EntryKind(mbr, i) != 0 || old(partitions) != null ==> partitions != null
    {
      var kind := EntryKind(mbr, i);
      if kind != 0 {
        AddRecord(PartRecord(kind, EntryLba(mbr, i), ByteOffset(d, EntryLba(mbr, i)), n, true));
      } else {
        assert RecordsOf(Parts()) + [] == RecordsOf(Parts());
      }
    }

    /** The MBR loop. */
    method AddPrimaries(mbr: seq<Byte>) returns (ext: Option<nat>)
      requires Valid() && partitions == null && |mbr| == 512
      modifies `partitions
      ensures Valid() && fresh(Nodes()) && forall q :: q in Parts() ==> fresh(q)
      ensures RecordsOf(Parts()) == Primaries(d, mbr, 4) && ext == ExtendedBase(mbr, 4)
      ensures ext.Some? ==> partitions != null
    {
      hide RecordsOf, PrimaryAt, EntryKind, EntryLba, PartitionList.Valid, U32;
      EmptyDisk();
      ext := None;
      var n := 1;
      NoRecords(Parts());
      for i := 0 to 4
        invariant n == i + 1 && Valid() && fresh(Nodes()) && forall q :: q in Parts() ==> fresh(q)
        invariant RecordsOf(Parts()) == Primaries(d, mbr, i)
        invariant ext == ExtendedBase(mbr, i) && (ext.Some? ==> partitions != null)
      {
        AddPrimary(mbr, i, n);
        if IsExtended(EntryKind(mbr, i)) {
          ext := Some(EntryLba(mbr, i));
        }
        n := n + 1;
      }
    }

    /** What the loop over the extended boot records does with one of them: its records, and the next
        link if it has one. */
    method AddEbr(sector: seq<Byte>, ext: nat, link: nat, n: nat) returns (next: Option<nat>)
      requires Valid() && partitions != null && sector == Ebr(d, ext, link)
      modifies `partitions, Nodes()
      ensures Valid() && partitions != null && fresh(Nodes() - old(Nodes()))
      ensures forall q :: q in Parts() ==> q in old(Parts()) || fresh(q)
      ensures RecordsOf(Parts()) == RecordsOf(old(Parts())) + EbrRecords(d, ext, link, n)
      ensures next == if Linked(sector) then Some(EntryLba(sector, 1)) else None
    {
      hide RecordsOf, EntryKind, EntryLba, Disk.Sector, PartitionList.Valid, U32;
      next := None;
      ghost var before := RecordsOf(Parts());
      var lba := EntryLba(sector, 0);
      AddRecord(PartRecord(EntryKind(sector, 0), lba, ByteOffset(d, U32(ext + link + lba)), n, false));
      ghost var volume := [PartRecord(EntryKind(sector, 0), lba, ByteOffset(d, U32(ext + link + lba)), n, false)];
      if EntryKind(sector, 1) == 0x5 {
        lba := EntryLba(sector, 1);
        ghost var linkRec := [PartRecord(0x5, lba, ByteOffset(d, U32(ext + link + lba)), 0, false)];
        AddRecord(PartRecord(0x5, lba, ByteOffset(d, U32(ext + link + lba)), 0, false));
        assert (before + volume) + linkRec == before + (volume + linkRec);
        next := Some(lba);
      } else {
        assert before + (volume + []) == before + volume;
      }
    }

    /** The do-while loop over the extended boot records; -1 exactly after a failed read or a missing
        signature (only the last record of a finite walk can miss it), the latter also discarding the list. */
    method ReadChain(ext: nat, ghost links: seq<nat>) returns (r: int)
      requires Valid() && partitions != null && FiniteWalk(d, ext, links)
      modifies this, Nodes()
      ensures Valid() && fresh(Nodes() - old(Nodes())) && forall q :: q in Parts() ==> q in old(Parts()) || fresh(q)
      ensures r == if readFailures == old(readFailures) && Signed(Ebr(d, ext, links[|links| - 1])) then 0 else -1
      ensures r == 0 ==> partitions != null
      ensures r == 0 ==> RecordsOf(Parts()) == Extended(RecordsOf(old(Parts())), d, ext, links, |links|)
      ensures partitions == null <==> r == -1 && readFailures == old(readFailures)
      ensures partitions != null ==>
                exists n :: 0 <= n <= |links| &&
                        RecordsOf(Parts()) == Extended(RecordsOf(old(Parts())), d, ext, links, n)
    {
      hide RecordsOf, EntryKind, EntryLba, Ebr, EbrRecords, Signed, PartitionList.Valid, U32, FiniteWalk, Linked,
        Extended;
      WalkStart(d, ext, links);
      ghost var before, j := RecordsOf(Parts()), 0;
      ExtendedNext(before, d, ext, links, 0);
      var offsetLogicExt, n, isExtended := 0, 5, true;
      while isExtended
        invariant Valid() && partitions != null && fresh(Nodes() - old(Nodes())) && readFailures == old(readFailures)
        invariant forall q :: q in Parts() ==> q in old(Parts()) || fresh(q)
        invariant 0 <= j <= |links| && n == 5 + j && (isExtended <==> j < |links|)
        invariant isExtended ==> offsetLogicExt == links[j]
        invariant j == |links| ==> Signed(Ebr(d, ext, links[j - 1]))
        invariant RecordsOf(Parts()) == Extended(before, d, ext, links, j)
        decreases |links| - j
      {
        var sector := ReadSectorsData(U32(ext + offsetLogicExt));
        if sector.None? {
          return -1;
        }
        EbrIsSector(d, ext, links[j]);
        WalkEnd(d, ext, links, j);
        if !Signed(sector.value) {
          Discard();
          return -1;
        }
        WalkAt(d, ext, links, j);
        var next := AddEbr(sector.value, ext, offsetLogicExt, n);
        ExtendedNext(before, d, ext, links, j);
        n := n + 1;
        isExtended := next.Some?;
        if isExtended {
          offsetLogicExt := next.value;
        }
        j := j + 1;
      }
      return 0;
    }

    /** `make_partitions_list`: 0 and exactly the records of the recursive walk when every read
        succeeds and every table is signed. A failed read gives -1 and leaves the records found so far, a missing
        signature gives -1 and leaves none. */
    method MakePartitionsList(ghost links: seq<nat>) returns (r: int)
      requires Valid() && partitions == null && Walkable(d, links)
      modifies this
      ensures Valid() && fresh(Nodes()) && forall q :: q in Parts() ==> fresh(q)
      ensures r == if readFailures == old(readFailures) && AllSigned(d, links) then 0 else -1
      ensures r == 0 ==> RecordsOf(Parts()) == AllRecords(d, links)
      ensures RecordsOf(Parts()) <= AllRecords(d, links)
      ensures r == -1 && readFailures == old(readFailures) ==> partitions == null
      ensures Increasing(RecordsOf(Parts()), 0)
    {
      hide RecordsOf, Primaries, ChainRecords, PartitionList.Valid, Disk.Sector, Increasing, Signed;
      NoRecords([]);
      EmptyIncreases();
      EmptyDisk();
      var sector := ReadSectorsData(0);
      if sector.None? {
        return -1;
      }
      if !Signed(sector.value) {
        return -1;
      }
      var ext := AddPrimaries(sector.value);
      PrimariesNumbering(d, sector.value, 4);
      assert Primaries(d, sector.value, 4) + [] == Primaries(d, sector.value, 4);
      if ext.Some? {
        r := ReadChain(ext.value, links);
        if partitions != null {
          ghost var n :| 0 <= n <= |links| &&
                         RecordsOf(Parts()) == Extended(Primaries(d, sector.value, 4), d, ext.value, links, n);
          NumberingIncreases(d, sector.value, ext.value, links, n);
          ExtendedPrefix(Primaries(d, sector.value, 4), d, ext.value, links, n, |links|);
        } else {
          EmptyDisk();
        }
      } else {
        r := 0;
      }
    }
  }

  lemma EmptyIncreases()
    ensures Increasing([], 0)
  {
  }

  /** A signed record continues a finite walk exactly while links remain. */
  lemma WalkAt(d: Disk, ext: nat, links: seq<nat>, j: nat)
    requires FiniteWalk(d, ext, links) && j < |links| && Signed(Ebr(d, ext, links[j]))
    ensures Linked(Ebr(d, ext, links[j])) <==> j + 1 < |links|
    ensures j + 1 < |links| ==> links[j + 1] == EntryLba(Ebr(d, ext, links[j]), 1)
  {
  }

  /** Only the last record of a finite walk can be unsigned. */
  lemma WalkEnd(d: Disk, ext: nat, links: seq<nat>, j: nat)
    requires FiniteWalk(d, ext, links) && j < |links|
    ensures Signed(Ebr(d, ext, links[j])) || j == |links| - 1
  {
  }

  lemma WalkStart(d: Disk, ext: nat, links: seq<nat>)
    requires FiniteWalk(d, ext, links)
    ensures |links| > 0 && links[0] == 0
  {
  }

  lemma NoRecords(parts: seq<Partition>)
    requires parts == []
    ensures RecordsOf(parts) == []
  {
  }

  lemma EbrIsSector(d: Disk, ext: nat, link: nat)
    ensures Ebr(d, ext, link) == d.Sector(U32(ext + link))
  {
  }
}