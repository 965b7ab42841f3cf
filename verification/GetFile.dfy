/** `FsGetFile` from the remote name to the copy: the device part is parsed and mapped to a partition, the rest
    is opened there, and what the copy protocol then does concerns the inode that was found. */
module GetFile {
  import opened Bytes
  import opened Volume
  import opened BlockMap
  import opened CopyProtocol
  import opened DeviceNames
  import opened Directory
  import opened Ext2Partition
  import opened Holes
  import opened IdMap
  import opened NameLookup
  import opened PathLookup

  /** What is decided before the copying thread is started. `Crash` stands for an index outside the disk's
      table, a null pointer followed or a faulting destructor. */
  datatype Located = FileNotFound | FileNotSupported | Crash | Ready(inodeNr: nat, inode: seq<Byte>)

  /** S_ISREG of i_mode. */
  predicate RegularMode(inode: seq<Byte>)
    requires ValidInode(inode)
  {
    Le16(inode, 0) / 0x1000 == 8
  }

  /** Position of the first separator from i on. */
  function NextSeparator(s: seq<Byte>, i: nat): (r: Option<nat>)
    requires i <= |s|
    ensures r.Some? ==> i <= r.value < |s| && s[r.value] == SEPARATOR && forall j :: i <= j < r.value ==>
            s[j] != SEPARATOR
    ensures r.None? ==> forall j :: i <= j < |s| ==> s[j] != SEPARATOR
    decreases |s| - i
  {
    if i == |s| then None else if s[i] == SEPARATOR then Some(i) else NextSeparator(s, i + 1)
  }

  /** Where the path on the partition starts: at the second separator of the converted name. */
  function PathStart(conv: seq<Byte>): (r: Option<nat>)
    ensures r.Some? ==> r.value <= |conv|
  {
    if conv == [] then None else NextSeparator(conv, 1)
  }

  /** The components and the file name in a converted name. */
  function PathOf(conv: seq<Byte>): (seq<seq<Byte>>, seq<Byte>)
    requires PathStart(conv).Some?
  {
    OpenParts(conv[PathStart(conv).value..])
  }

  /** What opening the path in a converted name finds in the directories of a partition. */
  ghost function Opens(geo: Geometry, lost: Failures, conv: seq<Byte>): Opened
    requires geo.Valid() && PathStart(conv).Some?
  {
    OpenFile(TreeOf(geo, lost), PathOf(conv).0, PathOf(conv).1)
  }

  /** Everything that opening the name on this partition would read is what it claims to be. */
  ghost predicate Openable(geo: Geometry, lost: Failures, conv: seq<Byte>)
  {
    geo.Valid() && IsDir(geo, ROOT_INO) &&
    (PathStart(conv).Some? ==>
       && OpenFollows(geo, lost, RecordsFound(geo, lost, ROOT_INO), PathOf(conv).0, false)
       && (Opens(geo, lost, conv).Found? ==>
             Opens(geo, lost, conv).inode > 0 && geo.Group(Opens(geo, lost, conv).inode) < |geo.grDesc|))
  }

  /** What the name comes to on this partition. */
  ghost function Outcome(geo: Geometry, lost: Failures, conv: seq<Byte>): Located
    requires Openable(geo, lost, conv)
  {
    if PathStart(conv).None? || Faulty(geo, ROOT_INO) then Crash
    else
      match Opens(geo, lost, conv)
      case NotFound => FileNotFound
      case Fault => Crash
      case Found(n) => if RegularMode(geo.DiskInode(n)) then Ready(n, geo.DiskInode(n)) else FileNotSupported
  }

  /** The part of `FsGetFile` that works on one partition. Unless a read fails it has the outcome that the
      records found determine; in any case what is handed to the copying thread is what the path leads to, and its
      inode's table is cached. */
  method OpenRemote(vol: Ext2Partition, lost: Failures, conv: seq<Byte>) returns (r: Located)
    requires vol.Valid() && Openable(vol.geo, lost, conv)
    modifies vol, vol.inodesTableCache
    ensures vol.Valid()
    ensures vol.FailedReads() == old(vol.FailedReads()) ==> r == Outcome(vol.geo, lost, conv)
    ensures r.Ready? ==> r == Outcome(vol.geo, lost, conv) && vol.geo.Group(r.inodeNr) in vol.groupDescQueue
  {
    hide IsDir, Faulty, OpenFollows, OpenFile, PathOf, RegularMode, RecordsFound, TreeOf;
    var start := PathStart(conv);
    if start.None? {
      return Crash;
    }
    var (words, name) := PathOf(conv);
    var result, inode := OpenOnPartition(vol, lost, words, name);
    if result == Fault {
      return Crash;
    }
    if inode.None? {
      return FileNotFound;
    }
    return if RegularMode(inode.value) then Ready(result.inode, inode.value) else FileNotSupported;
  }

  // ----- from the name to the partition -----

  /** The name starts with the printed name of entry j of a disk. */
  predicate Names(t: Tables, remoteName: string, disk: nat, j: nat) {
    disk < |t| && j < |t[disk]| && disk < 26 &&
    var device := "\\" + PrintName(disk, t[disk][j]);
    device <= remoteName && (|device| < |remoteName| ==> remoteName[|device|] == '\\')
  }

  /** The device part of the name parses to this disk and number, both in range. */
  ghost predicate ParsesTo(t: Tables, remoteName: string, disk: nat, part: nat) {
    && NamePart(remoteName).Some? && Validated(t, disk, part)
    && var name := NamePart(remoteName).value.1;
       exists k: nat :: NameShape(name, k) && disk == AlphaValue(name[..k]) - 1 && part == DecimalValue(name[k..])
  }

  /** The map sends them to index j of the disk's table, which may lie behind its end. */
  ghost predicate LeadsTo(t: Tables, m: seq<nat>, remoteName: string, disk: nat, j: nat)
    requires ValidTables(t) && IsIdMap(t, m)
  {
    exists part: nat :: ParsesTo(t, remoteName, disk, part) && j == Lookup(t, m, disk, part)
  }

  /** Parsing the device part and looking it up. */
  method PartitionOf(t: Tables, m: array<nat>, remoteName: string) returns (r: Option<(nat, nat)>)
    requires ValidTables(t) && IsIdMap(t, m[..])
    ensures r.Some? ==> r.value.0 < |t|
    ensures forall disk: nat, j: nat :: LeadsTo(t, m[..], remoteName, disk, j) <==> r == Some((disk, j))
  {
    hide IsIdMap, ValidTables, NamePart, NameShape, Validated, AlphaValue, DecimalValue, Lookup;
    var parsed := ExtractDiskAndPartNo(remoteName, t);
    forall disk: nat, part: nat
      ensures ParsesTo(t, remoteName, disk, part) <==>
              parsed.Some? && parsed.value.0 == disk && parsed.value.1 == part
    {
      ParsedOnce(t, remoteName, parsed, disk, part);
    }
    if parsed.None? {
      return None;
    }
    var (disk, part, _) := parsed.value;
    assert ParsesTo(t, remoteName, disk, part);
    InRange(t, m[..], disk, part);
    return Some((disk, m[m[disk] + part - 1]));
  }

  lemma InRange(t: Tables, m: seq<nat>, disk: nat, part: nat)
    requires IsIdMap(t, m) && ValidTables(t) && Validated(t, disk, part)
    ensures disk < |t| && disk < |m| && 0 <= m[disk] + part - 1 < |m|
    ensures Lookup(t, m, disk, part) == m[m[disk] + part - 1]
  {
  }

  /** What the parser yields is the only disk and number that the name parses to. */
  lemma ParsedOnce(t: Tables, remoteName: string, parsed: Option<(nat, nat, nat)>, disk: nat, part: nat)
    requires parsed.Some? <==> NamePart(remoteName).Some? && exists k: nat ::
               NameShape(NamePart(remoteName).value.1, k) &&
               Validated(t, AlphaValue(NamePart(remoteName).value.1[..k]) - 1,
                         DecimalValue(NamePart(remoteName).value.1[k..]))
    requires forall k: nat :: parsed.Some? && NameShape(NamePart(remoteName).value.1, k) ==>
               && parsed.value.0 == AlphaValue(NamePart(remoteName).value.1[..k]) - 1
               && parsed.value.1 == DecimalValue(NamePart(remoteName).value.1[k..])
    ensures ParsesTo(t, remoteName, disk, part) <==>
            parsed.Some? && parsed.value.0 == disk && parsed.value.1 == part
  {
  }

  /** Every printed name leads to its listed entry. */
  lemma PrintedNameLeads(t: Tables, m: seq<nat>, remoteName: string, disk: nat, j: nat)
    requires ValidTables(t) && IsIdMap(t, m) && Names(t, remoteName, disk, j)
    ensures LeadsTo(t, m, remoteName, disk, j)
  {
    hide IsIdMap, ValidTables, NamePart, NameShape, Validated, AlphaValue, DecimalValue, Lookup;
    SplitName(t, remoteName, disk, j);
    PrintedNameParses(disk, t[disk][j], remoteName[|"\\" + PrintName(disk, t[disk][j])|..]);
    LookupInverts(t, m, disk, j);
    assert ParsesTo(t, remoteName, disk, t[disk][j]);
  }

  lemma SplitName(t: Tables, remoteName: string, disk: nat, j: nat)
    requires Names(t, remoteName, disk, j)
    ensures var device := "\\" + PrintName(disk, t[disk][j]);
            var rest := remoteName[|device|..];
            remoteName == device + rest && (rest == [] || rest[0] == '\\')
  {
  }

  // ----- the whole -----

  /** One mounted partition for every entry of the tables. */
  ghost predicate Volumes(t: Tables, vols: seq<seq<Ext2Partition>>)
    reads set d, j | 0 <= d < |vols| && 0 <= j < |vols[d]| :: vols[d][j]
    reads set d, j | 0 <= d < |vols| && 0 <= j < |vols[d]| :: vols[d][j].inodesTableCache
  {
    && |vols| == |t| && (forall d :: 0 <= d < |t| ==> |vols[d]| == |t[d]|)
    && (forall d, j :: 0 <= d < |vols| && 0 <= j < |vols[d]| ==> vols[d][j].Valid())
  }

  /** `FsGetFile` up to the creation of the local file: a name that leads nowhere is not found, an index behind the
      end of the disk's table is followed, and otherwise the outcome is that on the partition the name leads to,
      which for a printed name is the listed one. */
  method FsGetFile(t: Tables, m: array<nat>, vols: seq<seq<Ext2Partition>>, lost: Failures, remoteName: string,
                   conv: seq<Byte>)
    returns (r: Located)
    requires ValidTables(t) && IsIdMap(t, m[..]) && Volumes(t, vols)
    requires forall disk: nat, j: nat :: LeadsTo(t, m[..], remoteName, disk, j) && disk < |vols| && j < |vols[disk]| ==>
               Openable(vols[disk][j].geo, lost, conv)
    modifies set d, j | 0 <= d < |vols| && 0 <= j < |vols[d]| :: vols[d][j]
    modifies set d, j | 0 <= d < |vols| && 0 <= j < |vols[d]| :: vols[d][j].inodesTableCache
    ensures (forall disk: nat, j: nat :: !LeadsTo(t, old(m[..]), remoteName, disk, j)) ==> r == FileNotFound
    ensures forall disk: nat, j: nat :: LeadsTo(t, old(m[..]), remoteName, disk, j) && disk < |vols| ==>
              if j >= |vols[disk]| then r == Crash
              else vols[disk][j].FailedReads() == old(vols[disk][j].FailedReads()) || r.Ready? ==>
                     r == Outcome(vols[disk][j].geo, lost, conv)
    ensures forall disk: nat, j: nat :: Names(t, remoteName, disk, j) ==>
              disk < |vols| && j < |vols[disk]| && LeadsTo(t, old(m[..]), remoteName, disk, j)
  {
    hide IsIdMap, ValidTables, Openable, Outcome, Names, LeadsTo;
    ghost var map0 := m[..];
    var found := PartitionOf(t, m, remoteName);
    assert m[..] == map0;
    forall disk: nat, j: nat | Names(t, remoteName, disk, j)
      ensures disk < |vols| && j < |vols[disk]| && LeadsTo(t, map0, remoteName, disk, j)
    {
      NamesListed(t, remoteName, disk, j);
      PrintedNameLeads(t, map0, remoteName, disk, j);
    }
    if found.None? {
      return FileNotFound;
    }
    assert LeadsTo(t, map0, remoteName, found.value.0, found.value.1);
    if found.value.1 >= |vols[found.value.0]| {
      return Crash;
    }
    r := OpenRemote(vols[found.value.0][found.value.1], lost, conv);
  }

  lemma NamesListed(t: Tables, remoteName: string, disk: nat, j: nat)
    requires Names(t, remoteName, disk, j)
    ensures disk < |t| && j < |t[disk]|
  {
  }

  /** The name of a live regular file of a partition: device, components, file name. */
  lemma NameOfFile(geo: Geometry, lost: Failures, device: seq<Byte>, words: seq<seq<Byte>>, i: nat)
    requires geo.Valid() && device != [] && SEPARATOR !in device[1..] && Components(words)
    requires LiveDir(TreeOf(geo, lost), RootEntries(TreeOf(geo, lost)), words).Some?
    requires var es := LiveDir(TreeOf(geo, lost), RootEntries(TreeOf(geo, lost)), words).value;
             i < |es| && LiveNamesUnique(es) && es[i].inode != 0 && es[i].fileType == FT_REG_FILE && Plain(es[i].name)
    ensures var es := LiveDir(TreeOf(geo, lost), RootEntries(TreeOf(geo, lost)), words).value;
            var conv := device + (Join(words) + [SEPARATOR] + es[i].name);
            && PathStart(conv).Some?
            && (Opens(geo, lost, conv) == Found(es[i].inode) <==>
                Clear(TreeOf(geo, lost), RootEntries(TreeOf(geo, lost)), words, Some(FT_DIR)) &&
                !DeletedBefore(es, es[i].name, Some(FT_REG_FILE), i))
  {
    hide TreeOf, LiveDir, Clear, DeletedBefore, OpenFile;
    var es := LiveDir(TreeOf(geo, lost), RootEntries(TreeOf(geo, lost)), words).value;
    var path := Join(words) + [SEPARATOR] + es[i].name;
    var conv := device + path;
    SecondSeparator(device, path);
    assert conv[|device|..] == path;
    PathOfListedEntry(words, es[i].name);
    LiveFileOpensExact(TreeOf(geo, lost), words, i);
  }

  /** The inode's mode, whose second byte starts with the file type, names a regular file: type 8. */
  predicate TypeIsRegular(inode: seq<Byte>)
    requires ValidInode(inode)
  {
    inode[1] as int / 16 == 8
  }

  /** The first regular entry of this name has inode number n, which exists. */
  ghost predicate OpensInode(geo: Geometry, es: seq<DirEntry>, name: seq<Byte>, n: nat)
    requires geo.Valid()
  {
    n != 0 && geo.Group(n) < |geo.grDesc| && exists i :: 0 <= i < |es| && FirstRegular(es, name, i) && es[i].inode == n
  }

  /** The path in a name made of device, components and file name. */
  lemma NameOpens(geo: Geometry, lost: Failures, device: seq<Byte>, words: seq<seq<Byte>>, name: seq<Byte>)
    requires geo.Valid() && device != [] && SEPARATOR !in device[1..] && Components(words) && Plain(name)
    ensures var conv := device + (Join(words) + [SEPARATOR] + name);
            PathStart(conv).Some? && Opens(geo, lost, conv) == OpenFile(TreeOf(geo, lost), words, name)
  {
    hide TreeOf, OpenFile;
    var path := Join(words) + [SEPARATOR] + name;
    SecondSeparator(device, path);
    assert (device + path)[|device|..] == path;
    PathOfListedEntry(words, name);
  }

  /** What becomes of the inode that a name opens. */
  lemma OutcomeOfOpened(geo: Geometry, lost: Failures, conv: seq<Byte>)
    requires Openable(geo, lost, conv) && PathStart(conv).Some? && !Faulty(geo, ROOT_INO)
    ensures var r := Outcome(geo, lost, conv);
            match Opens(geo, lost, conv)
            case NotFound => r == FileNotFound
            case Fault => r == Crash
            case Found(n) =>
              n != 0 && geo.Group(n) < |geo.grDesc| &&
              r == if TypeIsRegular(geo.DiskInode(n)) then Ready(n, geo.DiskInode(n)) else FileNotSupported
  {
    hide Opens, IsDir, OpenFollows, Faulty, RegularMode, TypeIsRegular;
    if Opens(geo, lost, conv).Found? {
      ModeType(geo.DiskInode(Opens(geo, lost, conv).inode));
    }
  }

  /** What `FsGetFile` comes to on a partition, in terms of the entries of the directory that the name's path means
      and of the bytes of the inode: a regular file is handed on with its number and its bytes, any other type is
      not supported, and a name without a regular entry, or with a deleted one first, is not found. */
  lemma OutcomeByEntries(geo: Geometry, lost: Failures, device: seq<Byte>, words: seq<seq<Byte>>, name: seq<Byte>)
    requires device != [] && SEPARATOR !in device[1..] && Components(words) && Plain(name)
    requires Openable(geo, lost, device + (Join(words) + [SEPARATOR] + name)) && !Faulty(geo, ROOT_INO)
    requires LiveDir(TreeOf(geo, lost), RootEntries(TreeOf(geo, lost)), words).Some?
    ensures var es := LiveDir(TreeOf(geo, lost), RootEntries(TreeOf(geo, lost)), words).value;
            var r := Outcome(geo, lost, device + (Join(words) + [SEPARATOR] + name));
            if !Clear(TreeOf(geo, lost), RootEntries(TreeOf(geo, lost)), words, Some(FT_DIR)) then r == Crash
            else
              && (forall n :: OpensInode(geo, es, name, n) ==>
                    r == if TypeIsRegular(geo.DiskInode(n)) then Ready(n, geo.DiskInode(n)) else FileNotSupported)
              && (r.Ready? || r == FileNotSupported <==> exists n :: OpensInode(geo, es, name, n))
              && (r == FileNotFound <==>
                  (forall i :: 0 <= i < |es| ==> es[i].name != name || es[i].fileType != 1) ||
                  (exists i :: 0 <= i < |es| && FirstRegular(es, name, i) && es[i].inode == 0))
  {
    hide TreeOf, LiveDir, Clear, OpenFile, FirstRegular, IsDir, OpenFollows, Faulty, Outcome, Openable, Opens,
      PathStart, TypeIsRegular, Geometry.Valid, Geometry.Group, RootEntries, Join;
    OpenableIsValid(geo, lost, device + (Join(words) + [SEPARATOR] + name));
    var tree := TreeOf(geo, lost);
    NameOpens(geo, lost, device, words, name);
    OutcomeOfOpened(geo, lost, device + (Join(words) + [SEPARATOR] + name));
    OpenFileByEntries(tree, words, name);
    var es := LiveDir(tree, RootEntries(tree), words).value;
    if Clear(tree, RootEntries(tree), words, Some(FT_DIR)) {
      forall n | OpensInode(geo, es, name, n)
        ensures OpenFile(tree, words, name) == Found(n)
      {
      }
      if OpenFile(tree, words, name).Found? {
        assert OpensInode(geo, es, name, OpenFile(tree, words, name).inode);
      }
    }
  }

  lemma OpenableIsValid(geo: Geometry, lost: Failures, conv: seq<Byte>)
    requires Openable(geo, lost, conv)
    ensures geo.Valid()
  {
  }

  lemma ModeType(inode: seq<Byte>)
    requires ValidInode(inode)
    ensures RegularMode(inode) <==> TypeIsRegular(inode)
  {
  }

  lemma SecondSeparator(device: seq<Byte>, path: seq<Byte>)
    requires device != [] && SEPARATOR !in device[1..] && path != [] && path[0] == SEPARATOR
    ensures PathStart(device + path) == Some(|device|)
  {
    var conv := device + path;
    assert forall j :: 1 <= j < |device| ==> conv[j] == device[1..][j - 1];
    assert conv[|device|] == SEPARATOR;
  }

  /** And what the copy protocol then does is about the file that was opened: whatever the interleaving, OK
      means that the local file is everything read for that inode, which is its file by the format exactly if
      every block is read right, whichever reads of its double-indirect block fail. */
  lemma GetFileIsHonest(vol: Ext2Partition, n: nat, lost: set<nat>, tr: seq<State>, i: nat)
    requires vol.Copyable(n, lost) && Execution(vol.SourceOf(n, lost), tr) && i < |tr|
    ensures IsPrefix(tr[i].file, vol.SourceOf(n, lost).Source())
    ensures tr[i].poller == Returned(FileOk) ==> tr[i].file == vol.SourceOf(n, lost).Source()
    ensures tr[i].poller == Returned(FileOk) && Described(vol.geo.fs, vol.geo.DiskInode(n)) ==>
              (tr[i].file == Contents(vol.geo.fs, vol.geo.DiskInode(n)) <==>
               Size(vol.geo.DiskInode(n)) == 0 || ReadsRight(vol.geo.fs, vol.geo.DiskInode(n), lost))
    ensures tr[i].poller.Returned? ==> tr[i].copier == Finished && !tr[i].open
  {
    hide Ext2Partition.SourceOf, Described, Contents, ReadsRight, Size;
    vol.SourceIsTheFile(n, lost);
    ResultIsHonest(vol.SourceOf(n, lost), tr, i);
  }
}
