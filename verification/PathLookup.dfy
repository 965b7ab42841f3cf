/** Listing and opening on a mounted partition: the walks of `NameLookup` over the directories that
    `get_dir_entry` really reads. */
module PathLookup {
  import opened Bytes
  import opened Volume
  import opened BlockMap
  import opened Directory
  import opened Ext2Partition
  import opened NameLookup
  import InodeCache

  /** For every directory, the requests at which reading its double-indirect block fails, should it be needed. */
  type Failures = nat -> set<nat>

  /** Inode n is a directory. */
  ghost predicate IsDir(geo: Geometry, n: nat)
    requires geo.Valid()
  {
    n > 0 && geo.Group(n) < |geo.grDesc| && IsDirectory(geo.fs, geo.DiskInode(n))
  }

  /** Reading it runs the destructor over a missing path array. */
  ghost predicate Faulty(geo: Geometry, n: nat)
    requires geo.Valid()
  {
    IsDir(geo, n) && Size(geo.DiskInode(n)) == 0 && UsesExtents(geo.DiskInode(n))
  }

  /** The records found in directory n. */
  ghost function RecordsFound(geo: Geometry, lost: Failures, n: nat): seq<DirEntry>
    requires geo.Valid() && IsDir(geo, n)
  {
    ReadRecords(geo.fs, geo.DiskInode(n), lost(n))
  }

  /** The directories of a partition that can be read, with what is found in them. */
  ghost function TreeOf(geo: Geometry, lost: Failures): (tree: Tree)
    requires geo.Valid()
    ensures NoInodeZero(tree)
  {
    (n: nat) => if geo.Valid() && IsDir(geo, n) && !Faulty(geo, n) then Some(RecordsFound(geo, lost, n)) else None
  }

  /** A readable directory stands in the tree with its own records unless a failed read is needed; so the tree
      of a partition on which no read fails is the partition's own. */
  lemma TreeIsThePartitions(geo: Geometry, lost: Failures, n: nat)
    requires geo.Valid() && IsDir(geo, n) && NothingLost(geo.fs, geo.DiskInode(n), lost(n))
    ensures !Faulty(geo, n) ==> TreeOf(geo, lost)(n) == Some(DirRecords(geo.fs, geo.DiskInode(n)))
    ensures RecordsFound(geo, lost, n) == DirRecords(geo.fs, geo.DiskInode(n))
  {
    hide IsDirectory, NothingLost, ReadRecords, DirRecords;
    DirReadRight(geo.fs, geo.DiskInode(n), lost(n));
  }

  /** What an open follows from the entries `es` on: every component that it enters, unless deleted, is a
      directory. */
  ghost predicate OpenFollows(geo: Geometry, lost: Failures, es: seq<DirEntry>, words: seq<seq<Byte>>, found: bool)
    requires geo.Valid()
    decreases |words|
  {
    words == [] ||
    (var hit := FindFrom(es, words[0], Some(FT_DIR), 0);
     if hit.Some? then EntersDir(geo, es[hit.value].inode) &&
                       (IsDir(geo, es[hit.value].inode) ==>
                          OpenFollows(geo, lost, RecordsFound(geo, lost, es[hit.value].inode), words[1..], true))
     else found ==> OpenFollows(geo, lost, es, words[1..], found))
  }

  ghost predicate EntersDir(geo: Geometry, n: nat)
    requires geo.Valid()
  {
    n == 0 || IsDir(geo, n)
  }

  /** The same for a listing, which enters entries of any type. */
  ghost predicate ListFollows(geo: Geometry, lost: Failures, es: seq<DirEntry>, words: seq<seq<Byte>>)
    requires geo.Valid()
    decreases |words|
  {
    words == [] ||
    (var hit := FindFrom(es, words[0], None, 0);
     if hit.Some? then EntersDir(geo, es[hit.value].inode) &&
                       (IsDir(geo, es[hit.value].inode) ==>
                          ListFollows(geo, lost, RecordsFound(geo, lost, es[hit.value].inode), words[1..]))
     else ListFollows(geo, lost, es, words[1..]))
  }

  /** A listing comes to a directory whose reading faults. */
  ghost predicate ListFaults(geo: Geometry, lost: Failures, es: seq<DirEntry>, words: seq<seq<Byte>>)
    requires geo.Valid()
    decreases |words|
  {
    words != [] &&
    var hit := FindFrom(es, words[0], None, 0);
    if hit.None? then ListFaults(geo, lost, es, words[1..])
    else
      var next := es[hit.value].inode;
      Faulty(geo, next) ||
      (Load(TreeOf(geo, lost), next).Some? && ListFaults(geo, lost, Load(TreeOf(geo, lost), next).value, words[1..]))
  }

  lemma DirInTree(geo: Geometry, lost: Failures, n: nat)
    requires geo.Valid()
    ensures IsDir(geo, n) && !Faulty(geo, n) ==>
              TreeOf(geo, lost)(n) == Some(RecordsFound(geo, lost, n)) &&
              Load(TreeOf(geo, lost), n) ==
              if Size(geo.DiskInode(n)) == 0 then None else Some(RecordsFound(geo, lost, n))
    ensures n == 0 || Faulty(geo, n) ==> TreeOf(geo, lost)(n) == None
  {
    if IsDir(geo, n) {
      NoRecordsInEmpty(geo.fs, geo.DiskInode(n), lost(n));
      CeilDivBounds(Size(geo.DiskInode(n)), geo.fs.blockSize);
      if Size(geo.DiskInode(n)) > 0 {
        SomeRecords(geo.fs, geo.DiskInode(n), lost(n), FileBlockCount(geo.fs, geo.DiskInode(n)));
      }
    }
  }

  /** Loads a directory for an open whose entry count is `count`: the entries to search, or nothing if a null
      table is searched or the destructor faults. */
  method LoadToOpen(p: Ext2Partition, lost: Failures, n: nat, count: nat)
    returns (r: Option<seq<DirEntry>>)
    requires p.Valid() && EntersDir(p.geo, n)
    modifies p, p.inodesTableCache
    ensures p.Valid() && p.FailedReads() >= old(p.FailedReads())
    ensures r.Some? && r.value != [] ==> n > 0 && p.FailedReads() == old(p.FailedReads())
    ensures p.FailedReads() == old(p.FailedReads()) ==>
              r == if Faulty(p.geo, n) || (n == 0 && count > 0) then None
                   else if n == 0 then Some([]) else Some(RecordsFound(p.geo, lost, n))
    ensures p.FailedReads() != old(p.FailedReads()) ==>
              r == if p.lookupFaults != old(p.lookupFaults) || count > 0 then None else Some([])
    ensures p.lookupFaults >= old(p.lookupFaults)
    ensures InodeCache.Within(old(p.groupDescQueue), p.groupDescQueue, 1)
  {
    hide IsDirectory, ReadRecords, DirRecords, Size, NothingLost;
    if n > 0 {
      DirInTree(p.geo, lost, n);
    }
    var tab, read, faulted := p.GetDirEntry(n, lost(n), count);
    r := if faulted then None
         else if tab != null then Some(tab[..read])
         else if read > 0 then None else Some([]);
  }

  /** The component loop of an open, from the entries of the root directory. */
  method WalkToOpen(p: Ext2Partition, lost: Failures, start: seq<DirEntry>, words: seq<seq<Byte>>) returns (r: Place)
    requires p.Valid() && OpenFollows(p.geo, lost, start, words, false)
    modifies p, p.inodesTableCache
    ensures p.Valid() && p.FailedReads() >= old(p.FailedReads())
    ensures p.FailedReads() == old(p.FailedReads()) ==> r == OpeningDir(TreeOf(p.geo, lost), start, words, false)
    ensures r.At? && r.entries != [] ==> start != [] && p.FailedReads() == old(p.FailedReads())
    ensures InodeCache.Within(old(p.groupDescQueue), p.groupDescQueue, |words|)
  {
    hide IsDir, Faulty, TreeOf, RecordsFound, EntersDir, InodeCache.Run, InodeCache.Next;
    ghost var tree, q := TreeOf(p.geo, lost), p.groupDescQueue;
    InodeCache.NoRequest(q);
    var es, found := start, false;
    assert words[0..] == words;
    for k := 0 to |words|
      invariant p.Valid() && p.FailedReads() >= old(p.FailedReads())
      invariant InodeCache.Within(q, p.groupDescQueue, k)
      invariant es != [] ==> start != [] && p.FailedReads() == old(p.FailedReads())
      invariant p.FailedReads() == old(p.FailedReads()) ==>
                  && OpenFollows(p.geo, lost, es, words[k..], found)
                  && OpeningDir(tree, es, words[k..], found) == OpeningDir(tree, start, words, false)
    {
      assert words[k..][1..] == words[k + 1..];
      var hit := Find(es, words[k], Some(FT_DIR));
      if hit.Some? {
        DirInTree(p.geo, lost, es[hit.value].inode);
        EntersExactly(p.geo, es[hit.value].inode);
        ghost var before := p.groupDescQueue;
        var loaded := LoadToOpen(p, lost, es[hit.value].inode, |es|);
        InodeCache.WithinCompose(q, before, p.groupDescQueue, k, 1);
        if loaded.None? {
          return Astray;
        }
        es, found := loaded.value, true;
      } else if !found {
        return Missing;
      }
    }
    r := At(es);
  }

  /** The search for the file in the last directory, and its inode. */
  method FetchFound(p: Ext2Partition, es: seq<DirEntry>, name: seq<Byte>) returns (r: Opened, inode: Option<seq<Byte>>)
    requires p.Valid() && (OpenIn(es, name).Found? ==> p.geo.Group(OpenIn(es, name).inode) < |p.geo.grDesc|)
    modifies p, p.inodesTableCache
    ensures p.Valid() && p.FailedReads() >= old(p.FailedReads())
    ensures r == if p.FailedReads() == old(p.FailedReads()) then OpenIn(es, name) else NotFound
    ensures inode.Some? <==> r.Found?
    ensures r.Found? ==> r.inode > 0 && inode.value == p.geo.DiskInode(r.inode) &&
                         p.geo.Group(r.inode) in p.groupDescQueue
    ensures InodeCache.Within(old(p.groupDescQueue), p.groupDescQueue, 1)
  {
    hide InodeCache.Run, InodeCache.Next;
    InodeCache.NoRequest(p.groupDescQueue);
    var hit := Find(es, name, Some(FT_REG_FILE));
    if hit.None? || es[hit.value].inode == 0 {
      return NotFound, None;
    }
    inode := p.GetExt4Inode(es[hit.value].inode);
    InodeCache.OneRequest(old(p.groupDescQueue), InodeCache.Request(p.geo.Group(es[hit.value].inode), inode.Some?));
    r := if inode.Some? then Found(es[hit.value].inode) else NotFound;
  }

  /** `get_ext2_inode` by path on the partition, with the inode it hands out. Unless a read fails, the outcome
      is the one that the records found determine. The table with the inode is then cached, and the walk has
      made at most one request to the cache for the root, for each component and for the inode. */
  method OpenOnPartition(p: Ext2Partition, lost: Failures, words: seq<seq<Byte>>, name: seq<Byte>)
    returns (r: Opened, inode: Option<seq<Byte>>)
    requires p.Valid() && IsDir(p.geo, ROOT_INO)
    requires OpenFollows(p.geo, lost, RecordsFound(p.geo, lost, ROOT_INO), words, false)
    requires OpenFile(TreeOf(p.geo, lost), words, name).Found? ==>
               p.geo.Group(OpenFile(TreeOf(p.geo, lost), words, name).inode) < |p.geo.grDesc|
    modifies p, p.inodesTableCache
    ensures p.Valid()
    ensures p.FailedReads() == old(p.FailedReads()) ==>
              r == if Faulty(p.geo, ROOT_INO) then Fault else OpenFile(TreeOf(p.geo, lost), words, name)
    ensures (inode.Some? <==> r.Found?) && (r.Found? ==> p.FailedReads() == old(p.FailedReads()))
    ensures r.Found? ==> r == OpenFile(TreeOf(p.geo, lost), words, name)
    ensures r.Found? ==> r.inode > 0 && p.geo.Group(r.inode) < |p.geo.grDesc| &&
                         inode.value == p.geo.DiskInode(r.inode)
    ensures r.Found? ==> p.geo.Group(r.inode) in p.groupDescQueue
    ensures InodeCache.Within(old(p.groupDescQueue), p.groupDescQueue, |words| + 2)
  {
    hide IsDir, Faulty, TreeOf, RecordsFound, EntersDir, OpenFollows, InodeCache.Run, InodeCache.Next;
    RootEnters(p.geo);
    DirInTree(p.geo, lost, ROOT_INO);
    inode := None;
    ghost var q := p.groupDescQueue;
    var loaded := LoadToOpen(p, lost, ROOT_INO, 0);
    if loaded.None? {
      return Fault, None;
    }
    if p.FailedReads() != old(p.FailedReads()) {
      NothingFollows(p.geo, lost, words);
    }
    ghost var q' := p.groupDescQueue;
    var place := WalkToOpen(p, lost, loaded.value, words);
    InodeCache.WithinCompose(q, q', p.groupDescQueue, 1, |words|);
    if place == Missing {
      return NotFound, None;
    }
    if place == Astray {
      return Fault, None;
    }
    q' := p.groupDescQueue;
    r, inode := FetchFound(p, place.entries, name);
    InodeCache.WithinCompose(q, q', p.groupDescQueue, |words| + 1, 1);
  }

  /** Nothing is entered from an empty directory. */
  lemma NothingFollows(geo: Geometry, lost: Failures, words: seq<seq<Byte>>)
    requires geo.Valid()
    ensures OpenFollows(geo, lost, [], words, false)
  {
  }

  lemma RootEnters(geo: Geometry)
    requires geo.Valid() && IsDir(geo, ROOT_INO)
    ensures EntersDir(geo, ROOT_INO)
  {
  }

  lemma EntersExactly(geo: Geometry, n: nat)
    requires geo.Valid()
    ensures EntersDir(geo, n) <==> n == 0 || IsDir(geo, n)
    ensures Faulty(geo, n) ==> IsDir(geo, n)
  {
  }

  /** Loads a directory for a listing. */
  method LoadToList(p: Ext2Partition, lost: Failures, n: nat, count: nat)
    returns (r: Option<seq<DirEntry>>, faulted: bool)
    requires p.Valid() && EntersDir(p.geo, n)
    modifies p, p.inodesTableCache
    ensures p.Valid() && p.FailedReads() >= old(p.FailedReads()) && (faulted ==> r == None)
    ensures p.FailedReads() != old(p.FailedReads()) ==> r == None
    ensures p.FailedReads() != old(p.FailedReads()) ==> (faulted <==> p.lookupFaults != old(p.lookupFaults))
    ensures p.lookupFaults >= old(p.lookupFaults)
    ensures InodeCache.Within(old(p.groupDescQueue), p.groupDescQueue, 1)
    ensures p.FailedReads() == old(p.FailedReads()) ==>
              r == Load(TreeOf(p.geo, lost), n) && (faulted <==> Faulty(p.geo, n))
    ensures r.Some? ==> IsDir(p.geo, n) && r.value == RecordsFound(p.geo, lost, n)
  {
    hide IsDirectory, ReadRecords, DirRecords, Size, NothingLost;
    DirInTree(p.geo, lost, n);
    var tab, read;
    tab, read, faulted := p.GetDirEntry(n, lost(n), count);
    r := if tab == null then None else Some(tab[..read]);
  }

  /** `get_first_dir_entry` followed by repeated `get_next_dir_entry` on the partition. Unless a read fails,
      exactly the visible records of the directory the walk ends in are shown, nothing if it ends nowhere,
      and the destructor faults exactly if the walk comes to an empty directory that uses extents. An inode
      table that a copy in progress points into stays cached unless it is nearly the oldest. */
  method ListOnPartition(p: Ext2Partition, lost: Failures, words: seq<seq<Byte>>)
    returns (shown: Option<seq<DirEntry>>, faulted: bool)
    requires p.Valid() && IsDir(p.geo, ROOT_INO)
    requires ListFollows(p.geo, lost, RecordsFound(p.geo, lost, ROOT_INO), words)
    modifies p, p.inodesTableCache
    ensures p.Valid() && (faulted ==> shown == None)
    ensures InodeCache.Within(old(p.groupDescQueue), p.groupDescQueue, |words| + 1)
    ensures p.FailedReads() == old(p.FailedReads()) ==>
              var dir := Listing(TreeOf(p.geo, lost), words);
              && shown == (if dir.None? then None else Some(Visible(dir.value)))
              && (faulted <==> Faulty(p.geo, ROOT_INO) ||
                               (Load(TreeOf(p.geo, lost), ROOT_INO).Some? &&
                                ListFaults(p.geo, lost, Load(TreeOf(p.geo, lost), ROOT_INO).value, words)))
  {
    hide IsDir, Faulty, TreeOf, RecordsFound, EntersDir, InodeCache.Run, InodeCache.Next, Visible;
    ghost var tree := TreeOf(p.geo, lost);
    RootEnters(p.geo);
    DirInTree(p.geo, lost, ROOT_INO);
    ghost var q := p.groupDescQueue;
    var es;
    es, faulted := LoadToList(p, lost, ROOT_INO, 0);
    shown := None;
    if es.None? {
      return;
    }
    NotBoth(p.geo, lost, ROOT_INO);
    for k := 0 to |words|
      invariant p.Valid() && p.FailedReads() == old(p.FailedReads()) && es.Some? && !faulted
      invariant InodeCache.Within(q, p.groupDescQueue, k + 1)
      invariant ListFollows(p.geo, lost, es.value, words[k..])
      invariant ListingDir(tree, es.value, words[k..]) == Listing(tree, words)
      invariant ListFaults(p.geo, lost, es.value, words[k..]) <==>
                Faulty(p.geo, ROOT_INO) || ListFaults(p.geo, lost, Load(tree, ROOT_INO).value, words)
    {
      assert words[k..][1..] == words[k + 1..];
      var hit := Find(es.value, words[k], None);
      if hit.Some? {
        NotBoth(p.geo, lost, es.value[hit.value].inode);
        DirInTree(p.geo, lost, es.value[hit.value].inode);
        ghost var before := p.groupDescQueue;
        es, faulted := LoadToList(p, lost, es.value[hit.value].inode, |es.value|);
        InodeCache.WithinCompose(q, before, p.groupDescQueue, k + 1, 1);
        if es.None? {
          return;
        }
      }
    }
    var visible := ListDirectory(es.value);
    shown := Some(visible);
  }

  lemma NotBoth(geo: Geometry, lost: Failures, n: nat)
    requires geo.Valid()
    ensures Load(TreeOf(geo, lost), n).Some? ==> !Faulty(geo, n)
  {
  }
}
