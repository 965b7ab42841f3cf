/** Mounting: the pass that counts the mountable partitions of a list and the pass that collects them. */
module ExtPartitions {
  import opened Mounting
  import opened PartitionTable
  import Volume

  /** A disk and, for every partition on it, whether its superblock and its descriptor table can be read. */
  datatype Device = Device(d: Disk, superReadable: PartRecord -> bool, tableReadable: PartRecord -> bool)
  {
    /** The bytes of a partition. */
    function Part(rec: PartRecord): Volume.Partition {
      Volume.Partition(d.bytes, rec.offset, d.sectorSize)
    }

    /** How mounting it turns out. */
    function Outcome(rec: PartRecord): Attempt {
      AttemptOn(Part(rec), superReadable(rec), tableReadable(rec))
    }

    /** Mounting it does not go astray on a malformed superblock. */
    predicate Safe(rec: PartRecord) {
      d.sectorSize == 512 && Sane(Part(rec)) && DescriptorsFit(Part(rec))
    }
  }

  predicate Tried(q: PartRecord) {
    q.kind == LINUX_TYPE
  }

  /** The state `get_ext2_sb` leaves behind in an unmounted partition. */
  function StateAfter(a: Attempt): Ext2State {
    match a
    case SuperblockUnreadable => Dangling
    case NotCompatible => NotMounted
    case Mountable => Mounted
  }

  /** The state of a partition once the counting pass has seen it. */
  function AfterCounting(rec: PartRecord, dev: Device): Ext2State {
    if Tried(rec) then StateAfter(dev.Outcome(rec)) else NotMounted
  }

  /** The partitions among the first n that mount, in list order. */
  function Selected(parts: seq<Partition>, dev: Device, n: nat): (r: seq<Partition>)
    requires n <= |parts|
    ensures |r| <= n
  {
    if n == 0 then []
    else Selected(parts, dev, n - 1)
         + if Tried(parts[n - 1].rec) && dev.Outcome(parts[n - 1].rec) == Mountable then [parts[n - 1]] else []
  }

  lemma NoneSelected(parts: seq<Partition>, dev: Device)
    ensures Selected(parts, dev, 0) == []
  {
  }

  lemma SelectedNext(parts: seq<Partition>, dev: Device, k: nat)
    requires k < |parts|
    ensures Selected(parts, dev, k + 1) ==
            if Tried(parts[k].rec) && dev.Outcome(parts[k].rec) == Mountable then Selected(parts, dev, k) + [parts[k]]
            else Selected(parts, dev, k)
  {
  }

  lemma {:induction false} SelectedGrows(parts: seq<Partition>, dev: Device, m: nat, n: nat)
    requires m <= n <= |parts|
    ensures |Selected(parts, dev, m)| <= |Selected(parts, dev, n)|
  {
    if m < n {
      SelectedGrows(parts, dev, m, n - 1);
    }
  }

  lemma {:induction false} SelectedNonEmpty(parts: seq<Partition>, dev: Device, n: nat)
    requires n <= |parts|
    ensures Selected(parts, dev, n) != [] <==>
            exists i :: 0 <= i < n && Tried(parts[i].rec) && dev.Outcome(parts[i].rec) == Mountable
  {
    if n > 0 {
      SelectedNonEmpty(parts, dev, n - 1);
    }
  }

  /** The part numbers of a table. */
  ghost function Numbers(parts: seq<Partition>): (r: seq<nat>)
    ensures |r| == |parts|
  {
    seq(|parts|, i requires 0 <= i < |parts| => parts[i].rec.partNo)
  }

  /** Positive and strictly increasing. */
  predicate Numbering(t: seq<nat>) {
    (forall i :: 0 <= i < |t| ==> t[i] > 0) && (forall i, j :: 0 <= i < j < |t| ==> t[i] < t[j])
  }

  lemma NumberingAppend(t: seq<nat>, x: nat)
    requires Numbering(t) && x > 0 && forall y :: y in t ==> y < x
    ensures Numbering(t + [x])
  {
    assert forall i :: 0 <= i < |t| ==> t[i] in t;
  }

  /** The numbering of the list carries over to the table of mounted partitions. */
  lemma {:induction false} SelectedNumbering(parts: seq<Partition>, dev: Device, n: nat)
    requires n <= |parts| && Increasing(RecordsOf(parts), 0)
    ensures Numbering(Numbers(Selected(parts, dev, n)))
    ensures forall x :: x in Numbers(Selected(parts, dev, n)) ==>
              exists i :: 0 <= i < n && parts[i].rec.partNo == x
  {
    hide Device.Outcome;
    if n > 0 {
      var rs := RecordsOf(parts);
      SelectedNumbering(parts, dev, n - 1);
      SelectedNext(parts, dev, n - 1);
      var last := parts[n - 1].rec;
      assert rs[n - 1] == last;
      if Tried(last) && dev.Outcome(last) == Mountable {
        var t := Numbers(Selected(parts, dev, n - 1));
        assert Numbers(Selected(parts, dev, n)) == t + [last.partNo];
        forall x | x in t
          ensures x < last.partNo
        {
          var i :| 0 <= i < n - 1 && parts[i].rec.partNo == x;
          assert rs[i].partNo == x > 0;
        }
        NumberingAppend(t, last.partNo);
      }
    }
  }

  /** True exactly when the partition ends up mounted; a superblock that cannot be read leaves the
      deleted pointer in place. */
  method GetExt2Sb(q: Partition, dev: Device) returns (ok: bool)
    requires q.ext2 != Dangling && dev.Safe(q.rec)
    modifies q
    ensures ok <==> q.ext2 == Mounted
    ensures q.ext2 == if old(q.ext2) == NotMounted then StateAfter(dev.Outcome(q.rec)) else Mounted
  {
    hide Sane;
    if q.ext2 == NotMounted {
      if !dev.superReadable(q.rec) {
        q.ext2 := Dangling;
        return false;
      }
      var geo, _ := Mount(dev.Part(q.rec), true, dev.tableReadable(q.rec));
      if geo.None? {
        return false;
      }
      q.ext2 := Mounted;
    }
    return true;
  }

  /** What a pass of the counting loop does with one partition. */
  method CountOne(p: Partition, dev: Device) returns (counted: nat)
    requires p.ext2 == NotMounted && (Tried(p.rec) ==> dev.Safe(p.rec))
    modifies p
    ensures p.ext2 == AfterCounting(p.rec, dev)
    ensures counted == if Tried(p.rec) && dev.Outcome(p.rec) == Mountable then 1 else 0
  {
    counted := 0;
    if p.rec.kind == LINUX_TYPE {
      var ok := GetExt2Sb(p, dev);
      if ok {
        counted := 1;
      }
    }
  }

  /** A list of partitions nobody has tried to mount yet, and that can be tried. */
  ghost predicate Untried(list: PartitionList, dev: Device)
    reads list, list.spine, list.parts
  {
    && list.Valid() && list.parts != []
    && forall q :: q in list.parts ==> q.ext2 == NotMounted && (Tried(q.rec) ==> dev.Safe(q.rec))
  }

  /** The counting pass: every Linux partition is tried once, and the count is the number that mount. */
  method FindLinuxPartitions(list: PartitionList?, dev: Device) returns (n: int)
    requires list != null ==> Untried(list, dev)
    modifies if list == null then [] else list.parts
    ensures if list == null then n == -1 else n == |Selected(list.parts, dev, |list.parts|)|
    ensures list != null ==> forall q :: q in list.parts ==> q.ext2 == AfterCounting(q.rec, dev)
  {
    if list == null {
      return -1;
    }
    n := CountMountable(list, dev);
  }

  method CountMountable(list: PartitionList, dev: Device) returns (n: nat)
    requires Untried(list, dev)
    modifies list.parts
    ensures n == |Selected(list.parts, dev, |list.parts|)|
    ensures forall q :: q in list.parts ==> q.ext2 == AfterCounting(q.rec, dev)
  {
    hide PartitionList.Valid, Selected, StateAfter;
    ghost var parts, i := list.parts, 0;
    list.NodeAt(0);
    NoneSelected(parts, dev);
    var nextP: PartitionList? := list;
    n := 0;
    while nextP != null
      invariant 0 <= i <= |parts| == |list.spine| && nextP == (if i < |parts| then list.spine[i] else null)
      invariant n == |Selected(parts, dev, i)|
      invariant forall j :: 0 <= j < i ==> parts[j].ext2 == AfterCounting(parts[j].rec, dev)
      invariant forall j :: i <= j < |parts| ==> parts[j].ext2 == NotMounted
      decreases |parts| - i
    {
      list.NodeAt(i);
      SelectedNext(parts, dev, i);
      var counted := CountOne(nextP.p, dev);
      n := n + counted;
      nextP := nextP.next;
      i := i + 1;
    }
  }

  /** The collecting pass after the counting pass. `fault` stands for following a deleted pointer; it
      happens exactly when some superblock could not be read while another partition did mount. In
      every other case the table holds the counted partitions, all of them, in list order, and a null
      at the end; nothing is written outside it. */
  method Ext2PartitionsInit(list: PartitionList?, dev: Device) returns (tab: array?<Partition?>, n: int, fault: bool)
    requires list != null ==> Untried(list, dev)
    modifies if list == null then [] else list.parts
    ensures list == null ==> tab == null && !fault
    ensures fault ==> tab == null
    ensures list != null ==>
              (fault <==> Selected(list.parts, dev, |list.parts|) != [] &&
                          exists q :: q in list.parts && Tried(q.rec) && dev.Outcome(q.rec) == SuperblockUnreadable)
    ensures list != null && !fault ==>
              var sel := Selected(list.parts, dev, |list.parts|);
              && n == |sel| && (tab == null <==> sel == [])
              && (tab != null ==> tab.Length == n + 1 && tab[..n] == sel && tab[n] == null)
  {
    tab, fault := null, false;
    n := FindLinuxPartitions(list, dev);
    if n <= 0 {
      return;
    }
    tab, fault := CollectMounted(list, n, dev);
    SelectedNonEmpty(list.parts, dev, |list.parts|);
  }

  /** The loop of the collecting pass. */
  method CollectMounted(list: PartitionList, n: nat, dev: Device) returns (tab: array?<Partition?>, fault: bool)
    requires list.Valid() && list.parts != [] && n == |Selected(list.parts, dev, |list.parts|)|
    requires forall q :: q in list.parts ==> q.ext2 == AfterCounting(q.rec, dev)
    ensures fault <==> exists q :: q in list.parts && Tried(q.rec) && dev.Outcome(q.rec) == SuperblockUnreadable
    ensures fault <==> tab == null
    ensures tab != null ==> tab.Length == n + 1 && tab[..n] == Selected(list.parts, dev, |list.parts|) && tab[n] == null
  {
    hide PartitionList.Valid, Selected;
    tab, fault := new Partition?[n + 1](_ => null), false;
    ghost var parts, k := list.parts, 0;
    list.NodeAt(0);
    NoneSelected(parts, dev);
    var nextP: PartitionList?, i := list, 0;
    while nextP != null
      invariant 0 <= k <= |parts| == |list.spine| && nextP == (if k < |parts| then list.spine[k] else null)
      invariant tab != null && fresh(tab) && tab.Length == n + 1
      invariant i <= n && tab[..i] == Selected(parts, dev, k)
      invariant forall j :: 0 <= j < k ==> !(Tried(parts[j].rec) && dev.Outcome(parts[j].rec) == SuperblockUnreadable)
      decreases |parts| - k
    {
      list.NodeAt(k);
      SelectedNext(parts, dev, k);
      SelectedGrows(parts, dev, k + 1, |parts|);
      var p := nextP.p;
      assert p in parts;
      if p.rec.kind == LINUX_TYPE {
        if p.ext2 == Dangling {
          return null, true;
        }
        if p.ext2 == Mounted {
          tab[i] := p;
          i := i + 1;
        }
      }
      nextP := nextP.next;
      k := k + 1;
    }
    tab[n] := null;
  }

  // ----- one disk from its tables to its mounted partitions -----

  /** The records among the first n that mount, in order. */
  function SelectedRecords(rs: seq<PartRecord>, dev: Device, n: nat): seq<PartRecord>
    requires n <= |rs|
  {
    if n == 0 then []
    else SelectedRecords(rs, dev, n - 1) + if Tried(rs[n - 1]) &&
            dev.Outcome(rs[n - 1]) == Mountable then [rs[n - 1]] else []
  }

  /** What is mounted, record by record: the partitions of type 0x83 whose superblock and descriptor table can be
      read and whose bytes 1080 and 1081 are the magic number 53 EF. */
  lemma {:induction false} SelectedExact(rs: seq<PartRecord>, dev: Device, n: nat)
    requires n <= |rs|
    ensures forall r :: r in SelectedRecords(rs, dev, n) <==>
                        r in rs[..n] && r.kind == 0x83 && dev.superReadable(r) && dev.tableReadable(r) &&
                        dev.d.bytes(r.offset + 1080) == 0x53 && dev.d.bytes(r.offset + 1081) == 0xEF
  {
    hide Device.Outcome;
    if n > 0 {
      SelectedExact(rs, dev, n - 1);
      OutcomeExact(rs[n - 1], dev);
      assert rs[..n] == rs[..n - 1] + [rs[n - 1]];
    }
  }

  lemma OutcomeExact(r: PartRecord, dev: Device)
    ensures dev.Outcome(r) == Mountable <==>
            dev.superReadable(r) && dev.tableReadable(r) &&
            dev.d.bytes(r.offset + 1080) == 0x53 && dev.d.bytes(r.offset + 1081) == 0xEF
  {
    var sb := SuperBlock(dev.Part(r));
    assert sb[56] == dev.d.bytes(r.offset + 1080) && sb[57] == dev.d.bytes(r.offset + 1081);
  }

  lemma {:induction false} SelectedAreSelected(parts: seq<Partition>, dev: Device, n: nat)
    requires n <= |parts|
    ensures RecordsOf(Selected(parts, dev, n)) == SelectedRecords(RecordsOf(parts), dev, n)
  {
    hide Device.Outcome;
    if n > 0 {
      SelectedAreSelected(parts, dev, n - 1);
      SelectedNext(parts, dev, n - 1);
      RecordsAppend(Selected(parts, dev, n - 1), parts[n - 1]);
    } else {
      assert RecordsOf(Selected(parts, dev, 0)) == [];
    }
  }

  lemma RecordOfPart(parts: seq<Partition>, rs: seq<PartRecord>, i: nat)
    requires RecordsOf(parts) <= rs && i < |parts|
    ensures parts[i].rec in rs
  {
    assert RecordsOf(parts)[i] == rs[i];
  }

  lemma UnreadableRecord(parts: seq<Partition>, dev: Device)
    ensures (exists q :: q in parts && Tried(q.rec) && dev.Outcome(q.rec) == SuperblockUnreadable) <==>
            (exists r :: r in RecordsOf(parts) && Tried(r) && dev.Outcome(r) == SuperblockUnreadable)
  {
    if r :| r in RecordsOf(parts) && Tried(r) && dev.Outcome(r) == SuperblockUnreadable {
      var i :| 0 <= i < |parts| && RecordsOf(parts)[i] == r;
      assert parts[i] in parts;
    }
    if q :| q in parts && Tried(q.rec) && dev.Outcome(q.rec) == SuperblockUnreadable {
      var i :| 0 <= i < |parts| && parts[i] == q;
      assert RecordsOf(parts)[i] in RecordsOf(parts);
    }
  }

  /** `disk::init`: without a failed read or an unsigned table the disk's table of mounted partitions
      is, record by record, what mounts of the records of the recursive walk, numbered with
      positive and strictly increasing numbers; after a failure it is empty. */
  method DiskInit(hd: HardDisk, dev: Device, ghost links: seq<nat>)
    returns (tab: array?<Partition?>, n: nat, fault: bool, ghost mounted: seq<Partition>)
    requires hd.Valid() && hd.partitions == null && Walkable(hd.d, links) && dev.d == hd.d
    requires forall r :: r in AllRecords(hd.d, links) && Tried(r) ==> dev.Safe(r)
    modifies hd
    ensures var rs := AllRecords(hd.d, links);
            var ok := hd.readFailures == old(hd.readFailures) && AllSigned(hd.d, links);
            && (fault <==> ok && SelectedRecords(rs, dev, |rs|) != [] &&
                           exists r :: r in rs && Tried(r) && dev.Outcome(r) == SuperblockUnreadable)
            && (!fault ==> RecordsOf(mounted) == if ok then SelectedRecords(rs, dev, |rs|) else [])
    ensures !fault ==> n == |mounted| && (tab == null <==> n == 0)
    ensures tab != null ==> tab.Length == n + 1 && tab[..n] == mounted && tab[n] == null
    ensures Numbering(Numbers(mounted))
  {
    hide PartitionList.Valid, Selected, SelectedRecords, AllRecords, AllSigned, Increasing, Walkable, RecordsOf;
    tab, n, fault, mounted := null, 0, false, [];
    NoRecords([]);
    var r := hd.MakePartitionsList(links);
    if r < 0 {
      return;
    }
    ghost var parts := hd.Parts();
    forall i | 0 <= i < |parts|
      ensures fresh(parts[i]) && (Tried(parts[i].rec) ==> dev.Safe(parts[i].rec))
    {
      assert parts[i] in hd.Parts();
      RecordOfPart(parts, AllRecords(hd.d, links), i);
    }
    SelectedAreSelected(parts, dev, |parts|);
    SelectedNumbering(parts, dev, |parts|);
    UnreadableRecord(parts, dev);
    NoneSelected(parts, dev);
    var count;
    tab, count, fault := Ext2PartitionsInit(hd.partitions, dev);
    if fault {
      return;
    }
    n, mounted := if tab == null then 0 else count, Selected(parts, dev, |parts|);
  }

  lemma {:induction false} LinksAreNotTried(rs: seq<PartRecord>, dev: Device)
    requires Increasing(rs, 0)
    ensures SelectedRecords(rs, dev, |rs|) == SelectedRecords(Numbered(rs), dev, |Numbered(rs)|)
    decreases |rs|
  {
    if rs != [] {
      hide Device.Outcome;
      var front, last := rs[..|rs| - 1], rs[|rs| - 1];
      LinksAreNotTried(front, dev);
      SelectedPrefix(front, rs, dev, |front|);
      if last.partNo != 0 {
        assert Numbered(rs) == Numbered(front) + [last];
        SelectedPrefix(Numbered(front), Numbered(rs), dev, |Numbered(front)|);
        assert Numbered(rs)[|Numbered(rs)| - 1] == last && Numbered(rs)[..|Numbered(rs)| - 1] == Numbered(front);
      } else {
        assert Numbered(rs) == Numbered(front) && last.kind == 0x5;
        assert SelectedRecords(rs, dev, |front|) + [] == SelectedRecords(rs, dev, |front|);
      }
    }
  }

  lemma {:induction false} SelectedPrefix(a: seq<PartRecord>, b: seq<PartRecord>, dev: Device, n: nat)
    requires a <= b && n <= |a|
    ensures SelectedRecords(a, dev, n) == SelectedRecords(b, dev, n)
  {
    if n > 0 {
      SelectedPrefix(a, b, dev, n - 1);
    }
  }

  /** Then what `DiskInit` mounts is what mounts of the partitions the format lists. */
  lemma MountsWhatTheFormatLists(dev: Device, links: seq<nat>, chain: seq<nat>)
    requires dev.d.sectorSize > 0 && Walkable(dev.d, links)
    requires DiskChain(dev.d, chain) && DiskCollectable(dev.d, chain)
    ensures var rs, fs := AllRecords(dev.d, links), FormatRecords(dev.d, chain);
            SelectedRecords(rs, dev, |rs|) == SelectedRecords(fs, dev, |fs|)
  {
    hide Primaries, ChainRecords, FormatVolumes, DiskChain, DiskCollectable, FiniteWalk, SelectedRecords, Numbered,
      Increasing, Disk.Sector, ExtendedBase;
    var mbr := dev.d.Sector(0);
    ListExact(dev.d, links, chain);
    if ExtendedBase(mbr, 4).Some? {
      NumberingIncreases(dev.d, mbr, ExtendedBase(mbr, 4).value, links, |links|);
    } else {
      PrimariesNumbering(dev.d, mbr, 4);
      assert Primaries(dev.d, mbr, 4) + [] == Primaries(dev.d, mbr, 4);
    }
    LinksAreNotTried(AllRecords(dev.d, links), dev);
  }
}
