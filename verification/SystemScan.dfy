/** The scan of all disks at start: every disk's table of mounted partitions, and the number map over them. */
module SystemScan {
  import opened ExtPartitions
  import opened IdMap
  import opened PartitionTable

  function RecordNumbers(rs: seq<PartRecord>): (t: seq<nat>)
    ensures |t| == |rs|
  {
    seq(|rs|, i requires 0 <= i < |rs| => rs[i].partNo)
  }

  /** The numbers of the records a disk mounts. */
  function MountedNumbers(dev: Device, links: seq<nat>): seq<nat> {
    var rs := AllRecords(dev.d, links);
    RecordNumbers(SelectedRecords(rs, dev, |rs|))
  }

  /** The disk can be scanned: nothing has been found on it yet, and nothing on it leads astray. */
  ghost predicate Scannable(hd: HardDisk, dev: Device, links: seq<nat>)
    reads hd
  {
    && hd.partitions == null && Walkable(hd.d, links) && dev.d == hd.d
    && forall r :: r in AllRecords(hd.d, links) && Tried(r) ==> dev.Safe(r)
  }

  /** One pass of the scan: the disk's numbers, none after a failed read or a missing signature. */
  method ScanDisk(hd: HardDisk, dev: Device, ghost links: seq<nat>) returns (numbers: seq<nat>, fault: bool)
    requires Scannable(hd, dev, links)
    modifies hd
    ensures hd.d == dev.d && Walkable(hd.d, links)
    ensures !fault ==> Numbering(numbers)
    ensures !fault ==> numbers == if hd.readFailures == old(hd.readFailures) && AllSigned(hd.d, links)
                                  then MountedNumbers(dev, links) else []
  {
    hide AllRecords, SelectedRecords, AllSigned, Walkable, Device.Safe, Numbering;
    hd.EmptyDisk();
    var tab, n;
    ghost var mounted;
    tab, n, fault, mounted := DiskInit(hd, dev, links);
    numbers := [];
    if fault {
      return;
    }
    for j := 0 to n
      invariant |numbers| == j && numbers == Numbers(mounted)[..j]
    {
      assert tab[..n][j] == mounted[j];
      numbers := numbers + [tab[j].rec.partNo];
    }
    assert numbers == Numbers(mounted);
    assert Numbers(mounted) == RecordNumbers(RecordsOf(mounted));
  }

  /** `search_system_for_linux_ext2_partitions`: scans all disks and builds the map. Without a fault the
      tables are those the disks mount, they are numbered as the map needs them, and the map is complete;
      its size is the number of disks plus the sum of the largest numbers. Without disks there is no map. */
  method SearchSystem(disks: seq<HardDisk>, devs: seq<Device>, ghost links: seq<seq<nat>>)
    returns (t: Tables, m: array?<nat>, fault: bool)
    requires |devs| == |disks| == |links|
    requires forall i, j :: 0 <= i < j < |disks| ==> disks[i] != disks[j]
    requires forall i :: 0 <= i < |disks| ==> Scannable(disks[i], devs[i], links[i])
    modifies disks
    ensures !fault ==> |t| == |disks| && ValidTables(t) && (m == null <==> disks == [])
    ensures !fault && m != null ==> IsIdMap(t, m[..])
    ensures !fault ==> forall i :: 0 <= i < |disks| ==>
              && Walkable(disks[i].d, links[i])
              && t[i] == if disks[i].readFailures == old(disks[i].readFailures) && AllSigned(disks[i].d, links[i])
                         then MountedNumbers(devs[i], links[i]) else []
  {
    hide MountedNumbers, Walkable, AllSigned, Device.Safe, AllRecords, Numbering, IsIdMap;
    t, m, fault := [], null, false;
    if |disks| == 0 {
      return;
    }
    var p := 0;
    for i := 0 to |disks|
      invariant |t| == i && (forall j :: 0 <= j < i ==> Numbering(t[j]))
      invariant forall j :: i <= j < |disks| ==>
                  Scannable(disks[j], devs[j], links[j]) && disks[j].readFailures == old(disks[j].readFailures)
      invariant forall j :: 0 <= j < i ==>
                  && Walkable(disks[j].d, links[j])
                  && t[j] == if disks[j].readFailures == old(disks[j].readFailures) && AllSigned(disks[j].d, links[j])
                             then MountedNumbers(devs[j], links[j]) else []
      invariant p == SumOfLargest(t)
    {
      var numbers;
      numbers, fault := ScanDisk(disks[i], devs[i], links[i]);
      if fault {
        return;
      }
      if |numbers| > 0 {
        p := p + numbers[|numbers| - 1];
      }
      SumAppend(t, numbers);
      t := t + [numbers];
    }
    StartIsSum(t, |t|);
    assert t[..|t|] == t;
    m := InitIdMap(t);
    assert |t| + p == Start(t, |t|);
  }

  function SumOfLargest(t: Tables): nat {
    if t == [] then 0 else SumOfLargest(t[..|t| - 1]) + MaxNo(t[|t| - 1])
  }

  lemma SumAppend(t: Tables, numbers: seq<nat>)
    ensures SumOfLargest(t + [numbers]) == SumOfLargest(t) + MaxNo(numbers)
  {
  }

  lemma {:induction false} StartIsSum(t: Tables, i: nat)
    requires i <= |t|
    ensures Start(t, i) == |t| + SumOfLargest(t[..i])
  {
    if i > 0 {
      StartIsSum(t, i - 1);
      assert t[..i] == t[..i - 1] + [t[i - 1]];
      SumAppend(t[..i - 1], t[i - 1]);
    }
  }
}
