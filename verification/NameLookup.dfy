/** Listing a directory and opening a file by path: the two walks over path components, the filter of
    the directory iterator, and when what is listed can be opened. */
module NameLookup {
  import opened Bytes
  import opened Directory

  /** The entries `get_dir_entry` returns for each inode; None if it returns nothing. */
  type Tree = nat -> Option<seq<DirEntry>>

  const ROOT_INO := 2
  const SEPARATOR: Byte := 92
  const DOT: Byte := 46

  // ----- the iterator's filter -----

  /** `!strncmp(lit, name, n)` for a literal without NUL bytes. */
  predicate SameUpTo(lit: seq<Byte>, name: seq<Byte>, n: nat)
    requires n <= |name|
    decreases n
  {
    if n == 0 then true
    else
      var c := if lit == [] then 0 else lit[0];
      c == name[0] && (c == 0 || SameUpTo(lit[1..], name[1..], n - 1))
  }

  predicate Hidden(e: DirEntry) {
    e.inode == 0 || SameUpTo([DOT], e.name, |e.name|) || SameUpTo([DOT, DOT], e.name, |e.name|)
  }

  /** A name that is this text, or has a NUL byte right behind it. */
  predicate Spells(name: seq<Byte>, text: seq<Byte>) {
    name == text || text + [0] <= name
  }

  /** The comparison is true exactly of the names that begin the literal or spell it. */
  lemma {:induction false} ComparedExactly(lit: seq<Byte>, name: seq<Byte>)
    requires 0 !in lit
    ensures SameUpTo(lit, name, |name|) <==> name <= lit || lit + [0] <= name
    decreases |name|
  {
    if name != [] && lit != [] {
      ComparedExactly(lit[1..], name[1..]);
      assert lit == [lit[0]] + lit[1..] && name == [name[0]] + name[1..];
      PrefixStep(name[0], name[1..], lit[0], lit[1..]);
      PrefixStep(lit[0], lit[1..] + [0], name[0], name[1..]);
      assert lit + [0] == [lit[0]] + (lit[1..] + [0]);
    }
  }

  lemma PrefixStep(a: Byte, s: seq<Byte>, b: Byte, t: seq<Byte>)
    ensures [a] + s <= [b] + t <==> a == b && s <= t
  {
    var x, y := [a] + s, [b] + t;
    if x <= y {
      assert x[0] == y[0];
      assert forall i :: 0 <= i < |s| ==> s[i] == x[i + 1] && x[i + 1] == y[i + 1] && y[i + 1] == t[i];
    }
  }

  /** The filter drops exactly dead entries and the names "", "." and "..", read up to a NUL byte. */
  lemma HiddenExact(e: DirEntry)
    ensures Hidden(e) <==> e.inode == 0 || e.name == [] || Spells(e.name, [46]) || Spells(e.name, [46, 46])
  {
    hide SameUpTo;
    ComparedExactly([46], e.name);
    ComparedExactly([46, 46], e.name);
    assert e.name <= [46, 46] ==> e.name == [] || e.name == [46] || e.name == [46, 46];
  }

  /** The entries a listing shows, in order. */
  function Visible(es: seq<DirEntry>): seq<DirEntry> {
    if es == [] then []
    else (if Hidden(es[0]) then [] else [es[0]]) + Visible(es[1..])
  }

  /** The filter works entry by entry and keeps the order. */
  lemma {:induction false} VisibleConcat(es: seq<DirEntry>, es': seq<DirEntry>)
    ensures Visible(es + es') == Visible(es) + Visible(es')
  {
    hide Hidden;
    if es == [] {
      assert es + es' == es';
    } else {
      assert (es + es')[0] == es[0] && (es + es')[1..] == es[1..] + es';
      VisibleConcat(es[1..], es');
    }
  }

  /** What it makes of a single entry. */
  lemma VisibleOne(e: DirEntry)
    ensures Visible([e]) ==
            if e.inode == 0 || e.name == [] || Spells(e.name, [46]) || Spells(e.name, [46, 46]) then [] else [e]
  {
    hide Hidden;
    HiddenExact(e);
    assert [e][1..] == [];
  }

  /** The visible entries from index i on. */
  lemma VisibleStep(es: seq<DirEntry>, i: nat)
    requires i <= |es|
    ensures Visible(es[i..]) == if i == |es| then [] else (if Hidden(es[i]) then [] else [es[i]]) + Visible(es[i + 1..])
  {
  }

  /** The search loop of `get_first_dir_entry` (from 0) and `get_next_dir_entry` (from the entry after
      the last one): the next visible entry, or the end. */
  method NextVisible(es: seq<DirEntry>, from: nat) returns (i: nat)
    requires from <= |es|
    ensures from <= i <= |es|
    ensures Visible(es[from..]) == if i < |es| then [es[i]] + Visible(es[i + 1..]) else []
    ensures i < |es| ==> !Hidden(es[i])
  {
    hide Hidden, Visible;
    i := from;
    VisibleStep(es, |es|);
    while i < |es|
      invariant from <= i <= |es| && Visible(es[i..]) == Visible(es[from..])
    {
      VisibleStep(es, i);
      if !Hidden(es[i]) {
        return;
      }
      i := i + 1;
    }
  }

  lemma ShowOne(shown: seq<DirEntry>, e: DirEntry, rest: seq<DirEntry>)
    ensures shown + ([e] + rest) == (shown + [e]) + rest
  {
  }

  /** First, then next until nothing is left: every visible entry once and in order. */
  method ListDirectory(es: seq<DirEntry>) returns (shown: seq<DirEntry>)
    ensures shown == Visible(es)
  {
    hide Hidden, Visible;
    shown := [];
    var last := NextVisible(es, 0);
    assert es[0..] == es;
    ghost var rest := Visible(es);
    while last < |es|
      invariant last <= |es| && shown + rest == Visible(es)
      invariant rest == if last < |es| then [es[last]] + Visible(es[last + 1..]) else []
      decreases |es| - last
    {
      ShowOne(shown, es[last], Visible(es[last + 1..]));
      shown := shown + [es[last]];
      rest := Visible(es[last + 1..]);
      last := NextVisible(es, last + 1);
    }
  }

  // ----- searching one directory -----

  /** Index of the first entry from i on with the given name and, if asked for, type. */
  function FindFrom(es: seq<DirEntry>, name: seq<Byte>, kind: Option<nat>, i: nat): (r: Option<nat>)
    requires i <= |es|
    ensures r.Some? ==> i <= r.value < |es| && Matches(es[r.value], name, kind) &&
                        forall j :: i <= j < r.value ==> !Matches(es[j], name, kind)
    ensures r.None? ==> forall j :: i <= j < |es| ==> !Matches(es[j], name, kind)
    decreases |es| - i
  {
    if i == |es| then None
    else if Matches(es[i], name, kind) then Some(i)
    else FindFrom(es, name, kind, i + 1)
  }

  predicate Matches(e: DirEntry, name: seq<Byte>, kind: Option<nat>) {
    e.name == name && (kind.Some? ==> e.fileType == kind.value)
  }

  method Find(es: seq<DirEntry>, name: seq<Byte>, kind: Option<nat>) returns (r: Option<nat>)
    ensures r == FindFrom(es, name, kind, 0)
  {
    for i := 0 to |es|
      invariant FindFrom(es, name, kind, i) == FindFrom(es, name, kind, 0)
    {
      if Matches(es[i], name, kind) {
        return Some(i);
      }
    }
    return None;
  }

  // ----- the two walks -----

  /** Loading a directory for a listing: an empty table counts as a failure. */
  function Load(tree: Tree, inode: nat): Option<seq<DirEntry>> {
    if tree(inode) == Some([]) then None else tree(inode)
  }

  /** The entries a listing ends up with: components are matched by name only, missing ones skipped, and a
      component that cannot be loaded ends it. */
  function ListingDir(tree: Tree, es: seq<DirEntry>, words: seq<seq<Byte>>): Option<seq<DirEntry>>
    decreases |words|
  {
    if words == [] then Some(es)
    else
      var hit := FindFrom(es, words[0], None, 0);
      if hit.None? then ListingDir(tree, es, words[1..])
      else if Load(tree, es[hit.value].inode).None? then None
      else ListingDir(tree, Load(tree, es[hit.value].inode).value, words[1..])
  }

  function Listing(tree: Tree, words: seq<seq<Byte>>): Option<seq<DirEntry>> {
    if Load(tree, ROOT_INO).None? then None else ListingDir(tree, Load(tree, ROOT_INO).value, words)
  }

  /** Where the walk of an open gets to: some directory; nowhere, the component being missing; or to a null
      table that it goes on to search, because the number of entries is still that of the directory before. */
  datatype Place = At(entries: seq<DirEntry>) | Missing | Astray

  /** The directory an open looks into: directories only, and missing components are skipped once some
      component has been found. */
  function OpeningDir(tree: Tree, es: seq<DirEntry>, words: seq<seq<Byte>>, found: bool): Place
    decreases |words|
  {
    if words == [] then At(es)
    else
      var hit := FindFrom(es, words[0], Some(FT_DIR), 0);
      if hit.Some? then
        if tree(es[hit.value].inode).None? then Astray
        else OpeningDir(tree, tree(es[hit.value].inode).value, words[1..], true)
      else if found then OpeningDir(tree, es, words[1..], found)
      else Missing
  }

  /** The result of opening a file: its inode number, nothing, or the null table searched. */
  datatype Opened = Found(inode: nat) | NotFound | Fault

  function RootEntries(tree: Tree): seq<DirEntry> {
    if tree(ROOT_INO).None? then [] else tree(ROOT_INO).value
  }

  /** Opening `name` in a directory: the first regular file of that name, unless it has been deleted. */
  function OpenIn(es: seq<DirEntry>, name: seq<Byte>): Opened {
    var hit := FindFrom(es, name, Some(FT_REG_FILE), 0);
    if hit.None? || es[hit.value].inode == 0 then NotFound else Found(es[hit.value].inode)
  }

  function OpenFile(tree: Tree, words: seq<seq<Byte>>, name: seq<Byte>): Opened {
    match OpeningDir(tree, RootEntries(tree), words, false)
    case At(es) => OpenIn(es, name)
    case Missing => NotFound
    case Astray => Fault
  }

  // ----- what a path means -----

  /** Index of the first live entry of a name from i on. */
  function LiveFrom(es: seq<DirEntry>, name: seq<Byte>, i: nat): (r: Option<nat>)
    requires i <= |es|
    ensures r.Some? ==> i <= r.value < |es| && es[r.value].name == name && es[r.value].inode != 0 &&
                        forall j :: i <= j < r.value ==> es[j].name != name || es[j].inode == 0
    ensures r.None? ==> forall j :: i <= j < |es| ==> es[j].name != name || es[j].inode == 0
    decreases |es| - i
  {
    if i == |es| then None
    else if es[i].name == name && es[i].inode != 0 then Some(i)
    else LiveFrom(es, name, i + 1)
  }

  /** The directory a path means: every component is the live entry of that name, and it names a directory
      that can be loaded and is not empty. */
  function LiveDir(tree: Tree, es: seq<DirEntry>, words: seq<seq<Byte>>): Option<seq<DirEntry>>
    decreases |words|
  {
    if words == [] then Some(es)
    else
      var live := LiveFrom(es, words[0], 0);
      if live.None? || es[live.value].fileType != FT_DIR || Load(tree, es[live.value].inode).None? then None
      else LiveDir(tree, Load(tree, es[live.value].inode).value, words[1..])
  }

  /** No deleted entry of its name stands in front of the live entry of any component; with `kind` given,
      no deleted entry of that type. */
  predicate Clear(tree: Tree, es: seq<DirEntry>, words: seq<seq<Byte>>, kind: Option<nat>)
    requires LiveDir(tree, es, words).Some?
    decreases |words|
  {
    words == [] ||
    (var live := LiveFrom(es, words[0], 0).value;
     && !DeletedBefore(es, words[0], kind, live)
     && Clear(tree, Load(tree, es[live].inode).value, words[1..], kind))
  }

  predicate DeletedBefore(es: seq<DirEntry>, name: seq<Byte>, kind: Option<nat>, i: nat)
    requires i <= |es|
  {
    exists j :: 0 <= j < i && es[j].inode == 0 && Matches(es[j], name, kind)
  }

  /** The first match is the live entry, unless a deleted one stands in front of it. */
  lemma FirstMatch(es: seq<DirEntry>, name: seq<Byte>, kind: Option<nat>)
    requires LiveFrom(es, name, 0).Some? && (kind.Some? ==> es[LiveFrom(es, name, 0).value].fileType == kind.value)
    ensures var live, hit := LiveFrom(es, name, 0).value, FindFrom(es, name, kind, 0);
            hit.Some? && if DeletedBefore(es, name, kind, live) then es[hit.value].inode == 0 else hit.value == live
  {
  }

  /** Inode 0 can never be loaded. */
  predicate NoInodeZero(tree: Tree) {
    tree(0).None?
  }

  /** A listing gets to the directory its path means exactly when no deleted entry of a component's name
      comes before the live one; otherwise it shows nothing. */
  lemma {:induction false} ListingReachesExact(tree: Tree, es: seq<DirEntry>, words: seq<seq<Byte>>)
    requires NoInodeZero(tree) && LiveDir(tree, es, words).Some?
    ensures ListingDir(tree, es, words) == if Clear(tree, es, words, None) then LiveDir(tree, es, words) else None
    decreases |words|
  {
    if words != [] {
      FirstMatch(es, words[0], None);
      ListingReachesExact(tree, Load(tree, es[LiveFrom(es, words[0], 0).value].inode).value, words[1..]);
    }
  }

  /** An open gets there exactly when no deleted directory entry of a component's name comes before the live
      one; otherwise it searches a null table. */
  lemma {:induction false} OpeningReachesExact(tree: Tree, es: seq<DirEntry>, words: seq<seq<Byte>>, found: bool)
    requires NoInodeZero(tree) && LiveDir(tree, es, words).Some?
    ensures OpeningDir(tree, es, words, found) ==
            if Clear(tree, es, words, Some(FT_DIR)) then At(LiveDir(tree, es, words).value) else Astray
    decreases |words|
  {
    if words != [] {
      FirstMatch(es, words[0], Some(FT_DIR));
      OpeningReachesExact(tree, Load(tree, es[LiveFrom(es, words[0], 0).value].inode).value, words[1..], true);
    }
  }

  lemma {:induction false} ClearForAllKinds(tree: Tree, es: seq<DirEntry>, words: seq<seq<Byte>>, kind: nat)
    requires LiveDir(tree, es, words).Some? && Clear(tree, es, words, None)
    ensures Clear(tree, es, words, Some(kind))
    decreases |words|
  {
    if words != [] {
      var live := LiveFrom(es, words[0], 0).value;
      assert forall j :: 0 <= j < live && Matches(es[j], words[0], Some(kind)) ==> Matches(es[j], words[0], None);
      ClearForAllKinds(tree, Load(tree, es[live].inode).value, words[1..], kind);
    }
  }

  // ----- agreement -----

  /** Where a listing gets to, an open gets to as well. */
  lemma WalksAgree(tree: Tree, words: seq<seq<Byte>>)
    requires NoInodeZero(tree) && Load(tree, ROOT_INO).Some? && LiveDir(tree, RootEntries(tree), words).Some?
    ensures Listing(tree, words).Some? ==>
              Listing(tree, words) == LiveDir(tree, RootEntries(tree), words) &&
              OpeningDir(tree, RootEntries(tree), words, false) == At(Listing(tree, words).value)
  {
    ListingReachesExact(tree, RootEntries(tree), words);
    OpeningReachesExact(tree, RootEntries(tree), words, false);
    if Clear(tree, RootEntries(tree), words, None) {
      ClearForAllKinds(tree, RootEntries(tree), words, FT_DIR);
    }
  }

  /** No two live entries share a name. */
  predicate LiveNamesUnique(es: seq<DirEntry>) {
    forall i, j :: 0 <= i < j < |es| && es[i].inode != 0 && es[j].inode != 0 ==> es[i].name != es[j].name
  }

  /** Opening searches deleted entries too, which a listing hides: in a directory, a live regular file opens
      to its own inode exactly when no deleted regular entry of its name precedes it. */
  lemma OpenInExact(es: seq<DirEntry>, i: nat)
    requires i < |es| && LiveNamesUnique(es) && es[i].inode != 0 && es[i].fileType == FT_REG_FILE
    ensures OpenIn(es, es[i].name) == Found(es[i].inode) <==> !DeletedBefore(es, es[i].name, Some(FT_REG_FILE), i)
  {
  }

  /** Entry i is a regular file of this name (type 1), and no entry before it is. */
  predicate FirstRegular(es: seq<DirEntry>, name: seq<Byte>, i: nat)
    requires i < |es|
  {
    && es[i].name == name && es[i].fileType == 1
    && forall j :: 0 <= j < i ==> es[j].name != name || es[j].fileType != 1
  }

  /** What is opened in a directory, entry by entry, for every name: inode n exactly if the first regular entry of
      that name has it, and nothing exactly if there is no such entry or the first one is deleted. */
  lemma OpenInByEntries(es: seq<DirEntry>, name: seq<Byte>)
    ensures forall n :: OpenIn(es, name) == Found(n) <==>
                        n != 0 && exists i :: 0 <= i < |es| && FirstRegular(es, name, i) && es[i].inode == n
    ensures OpenIn(es, name) == NotFound <==>
            (forall i :: 0 <= i < |es| ==> es[i].name != name || es[i].fileType != 1) ||
            (exists i :: 0 <= i < |es| && FirstRegular(es, name, i) && es[i].inode == 0)
    ensures OpenIn(es, name) != Fault
  {
    var hit := FindFrom(es, name, Some(FT_REG_FILE), 0);
    if hit.Some? {
      assert FirstRegular(es, name, hit.value);
      assert forall i :: 0 <= i < |es| && FirstRegular(es, name, i) ==> i == hit.value;
    } else {
      assert forall i :: 0 <= i < |es| ==> !Matches(es[i], name, Some(FT_REG_FILE));
    }
  }

  /** The same for a whole path whose components exist: it is what the directory it means says, unless a deleted
      directory entry stands in front of a component. */
  lemma OpenFileByEntries(tree: Tree, words: seq<seq<Byte>>, name: seq<Byte>)
    requires NoInodeZero(tree) && LiveDir(tree, RootEntries(tree), words).Some?
    ensures var es := LiveDir(tree, RootEntries(tree), words).value;
            var r := OpenFile(tree, words, name);
            if !Clear(tree, RootEntries(tree), words, Some(FT_DIR)) then r == Fault
            else
              && (forall n :: r == Found(n) <==>
                              n != 0 && exists i :: 0 <= i < |es| && FirstRegular(es, name, i) && es[i].inode == n)
              && (r == NotFound <==>
                  (forall i :: 0 <= i < |es| ==> es[i].name != name || es[i].fileType != 1) ||
                  (exists i :: 0 <= i < |es| && FirstRegular(es, name, i) && es[i].inode == 0))
              && r != Fault
  {
    hide OpenIn, FirstRegular, Clear, LiveDir;
    OpeningReachesExact(tree, RootEntries(tree), words, false);
    OpenInByEntries(LiveDir(tree, RootEntries(tree), words).value, name);
  }

  // ----- components that do not exist -----

  /** No entry of this name can be entered; with `kind` given, none of that type. */
  predicate NoSuch(es: seq<DirEntry>, word: seq<Byte>, kind: Option<nat>) {
    forall i :: 0 <= i < |es| ==> es[i].name != word || (kind.Some? && es[i].fileType != kind.value)
  }

  lemma NothingFound(es: seq<DirEntry>, word: seq<Byte>, kind: Option<nat>)
    requires NoSuch(es, word, kind)
    ensures FindFrom(es, word, kind, 0).None?
  {
  }

  /** The walk of an open over two parts of a path. */
  lemma {:induction false} OpeningSplit(tree: Tree, es: seq<DirEntry>, a: seq<seq<Byte>>, b: seq<seq<Byte>>,
                                        found: bool)
    requires found || a != []
    ensures OpeningDir(tree, es, a + b, found) ==
            match OpeningDir(tree, es, a, found)
            case At(es') => OpeningDir(tree, es', b, true)
            case Missing => Missing
            case Astray => Astray
    decreases |a|
  {
    if a == [] {
      assert a + b == b;
    } else {
      assert (a + b)[0] == a[0] && (a + b)[1..] == a[1..] + b;
      var hit := FindFrom(es, a[0], Some(FT_DIR), 0);
      if hit.Some? && tree(es[hit.value].inode).Some? {
        OpeningSplit(tree, tree(es[hit.value].inode).value, a[1..], b, true);
      } else if hit.None? && found {
        OpeningSplit(tree, es, a[1..], b, true);
      }
    }
  }

  lemma {:induction false} ListingSplit(tree: Tree, es: seq<DirEntry>, a: seq<seq<Byte>>, b: seq<seq<Byte>>)
    ensures ListingDir(tree, es, a + b) ==
            match ListingDir(tree, es, a)
            case Some(es') => ListingDir(tree, es', b)
            case None => None
    decreases |a|
  {
    if a == [] {
      assert a + b == b;
    } else {
      assert (a + b)[0] == a[0] && (a + b)[1..] == a[1..] + b;
      var hit := FindFrom(es, a[0], None, 0);
      if hit.None? {
        ListingSplit(tree, es, a[1..], b);
      } else if Load(tree, es[hit.value].inode).Some? {
        ListingSplit(tree, Load(tree, es[hit.value].inode).value, a[1..], b);
      }
    }
  }

  /** An open whose first component is no directory of the root (type 2) finds nothing. */
  lemma FirstComponentMissing(tree: Tree, word: seq<Byte>, rest: seq<seq<Byte>>, name: seq<Byte>)
    requires NoSuch(RootEntries(tree), word, Some(2))
    ensures OpenFile(tree, [word] + rest, name) == NotFound
  {
    NothingFound(RootEntries(tree), word, Some(FT_DIR));
  }

  /** But one whose later component is missing goes on as if that component were not there: the file of the
      shorter path is opened. */
  lemma MissingComponentIsSkipped(tree: Tree, a: seq<seq<Byte>>, word: seq<Byte>, b: seq<seq<Byte>>, name: seq<Byte>)
    requires a != [] && OpeningDir(tree, RootEntries(tree), a, false).At?
    requires NoSuch(OpeningDir(tree, RootEntries(tree), a, false).entries, word, Some(2))
    ensures OpenFile(tree, a + ([word] + b), name) == OpenFile(tree, a + b, name)
  {
    hide FindFrom, OpenIn;
    var es := OpeningDir(tree, RootEntries(tree), a, false).entries;
    OpeningSplit(tree, RootEntries(tree), a, [word] + b, false);
    OpeningSplit(tree, RootEntries(tree), a, b, false);
    NothingFound(es, word, Some(FT_DIR));
    assert ([word] + b)[1..] == b;
  }

  /** A listing does so for the first component as well. */
  lemma ListingSkipsMissing(tree: Tree, a: seq<seq<Byte>>, word: seq<Byte>, b: seq<seq<Byte>>)
    requires Load(tree, ROOT_INO).Some? && ListingDir(tree, Load(tree, ROOT_INO).value, a).Some?
    requires NoSuch(ListingDir(tree, Load(tree, ROOT_INO).value, a).value, word, None)
    ensures Listing(tree, a + ([word] + b)) == Listing(tree, a + b)
  {
    hide FindFrom;
    var root := Load(tree, ROOT_INO).value;
    ListingSplit(tree, root, a, [word] + b);
    ListingSplit(tree, root, a, b);
    NothingFound(ListingDir(tree, root, a).value, word, None);
    assert ([word] + b)[1..] == b;
  }

  // ----- files that are there -----

  /** A live regular file opens by its path exactly when no deleted directory entry stands in front of any
      component and no deleted regular entry in front of the file. */
  lemma LiveFileOpensExact(tree: Tree, words: seq<seq<Byte>>, i: nat)
    requires NoInodeZero(tree) && LiveDir(tree, RootEntries(tree), words).Some?
    requires var es := LiveDir(tree, RootEntries(tree), words).value;
             i < |es| && LiveNamesUnique(es) && es[i].inode != 0 && es[i].fileType == FT_REG_FILE
    ensures var es := LiveDir(tree, RootEntries(tree), words).value;
            OpenFile(tree, words, es[i].name) == Found(es[i].inode) <==>
            Clear(tree, RootEntries(tree), words, Some(FT_DIR)) && !DeletedBefore(es, es[i].name, Some(FT_REG_FILE), i)
  {
    OpeningReachesExact(tree, RootEntries(tree), words, false);
    OpenInExact(LiveDir(tree, RootEntries(tree), words).value, i);
  }

  /** So a regular file that a listing shows opens to its own inode exactly when no deleted regular entry of
      its name precedes it. */
  lemma ListedFileOpensExact(tree: Tree, words: seq<seq<Byte>>, i: nat)
    requires NoInodeZero(tree) && Load(tree, ROOT_INO).Some? && LiveDir(tree, RootEntries(tree), words).Some?
    requires Listing(tree, words).Some?
    requires var es := Listing(tree, words).value;
             i < |es| && LiveNamesUnique(es) && !Hidden(es[i]) && es[i].fileType == FT_REG_FILE
    ensures var es := Listing(tree, words).value;
            OpenFile(tree, words, es[i].name) == Found(es[i].inode) <==>
            !DeletedBefore(es, es[i].name, Some(FT_REG_FILE), i)
  {
    WalksAgree(tree, words);
    OpenInExact(Listing(tree, words).value, i);
  }

  /** Such a directory: the deleted "a" in front of the live one makes the listed file unopenable. */
  lemma DeletedEntryHidesFile()
    ensures var es := [DirEntry(0, 12, 1, [97]), DirEntry(13, 12, 1, [97])];
            var tree: Tree := n => if n == 2 then Some(es) else None;
            Listing(tree, []) == Some(es) && Visible(es) == [es[1]] && OpenFile(tree, [], [97]) == NotFound
  {
    var es := [DirEntry(0, 12, 1, [97]), DirEntry(13, 12, 1, [97])];
    assert es[1..] == [es[1]] && es[1..][1..] == [];
    HiddenExact(es[1]);
    assert Visible(es[1..]) == [es[1]] + Visible([]);
  }

  // ----- path strings -----

  predicate Plain(s: seq<Byte>) {
    SEPARATOR !in s
  }

  /** Length of the text up to the next separator. */
  function WordLength(s: seq<Byte>): (n: nat)
    ensures n <= |s| && Plain(s[..n]) && (n < |s| ==> s[n] == SEPARATOR)
  {
    if s == [] || s[0] == SEPARATOR then 0
    else
      var n := WordLength(s[1..]);
      assert s[..n + 1] == [s[0]] + s[1..][..n];
      n + 1
  }

  /** The words `strtok_s` yields one after the other. */
  function Words(s: seq<Byte>): seq<seq<Byte>>
    decreases |s|
  {
    if s == [] then []
    else if s[0] == SEPARATOR then Words(s[1..])
    else [s[..WordLength(s)]] + Words(s[WordLength(s)..])
  }

  /** A separator, wherever it stands, splits a text into two that have their own words; without one a text is a
      single word, or none if it is empty. */
  lemma {:induction false} WordsSplit(s: seq<Byte>, s': seq<Byte>)
    ensures Words(s + [92] + s') == Words(s) + Words(s')
    ensures 92 !in s && s != [] ==> Words(s) == [s]
    ensures Words([]) == []
    decreases |s|
  {
    hide Words, WordLength;
    NoWords();
    if s == [] {
      assert [] + [92] + s' == [92] + s';
      WordsSkip(s');
    } else if s[0] == 92 {
      var t := s[1..];
      assert s == [92] + t && s + [92] + s' == [92] + (t + [92] + s');
      WordsSkip(t);
      WordsSkip(t + [92] + s');
      WordsSplit(t, s');
    } else {
      var w, t := s[..WordLength(s)], s[WordLength(s)..];
      NotEmpty(s);
      assert |w| < |s| ==> s[|w|] == 92 && s[|w|] in s;
      assert 92 !in s ==> t == [] && w == s;
      assert s == w + t && s + [92] + s' == w + (t + [92] + s');
      WordsTake(w, t);
      WordsTake(w, t + [92] + s');
      WordsSplit(t, s');
    }
  }

  lemma NoWords()
    ensures Words([]) == []
  {
  }

  lemma NotEmpty(s: seq<Byte>)
    requires s != [] && s[0] != SEPARATOR
    ensures WordLength(s) > 0
  {
  }

  lemma WordsSkip(s: seq<Byte>)
    ensures Words([SEPARATOR] + s) == Words(s)
  {
    assert ([SEPARATOR] + s)[1..] == s;
  }

  /** The first word of a text. */
  lemma WordsTake(w: seq<Byte>, rest: seq<Byte>)
    requires w != [] && Plain(w) && (rest == [] || rest[0] == SEPARATOR)
    ensures Words(w + rest) == [w] + Words(rest)
  {
    hide WordLength;
    WordLengthOf(w, rest);
    assert (w + rest)[0] == w[0] && (w + rest)[..|w|] == w && (w + rest)[|w|..] == rest;
  }

  /** A path below the device: every component behind a separator. */
  function Join(words: seq<seq<Byte>>): seq<Byte> {
    if words == [] then [] else [SEPARATOR] + words[0] + Join(words[1..])
  }

  predicate Components(words: seq<seq<Byte>>) {
    forall k :: 0 <= k < |words| ==> words[k] != [] && Plain(words[k])
  }

  lemma {:induction false} WordLengthOf(w: seq<Byte>, rest: seq<Byte>)
    requires Plain(w) && (rest == [] || rest[0] == SEPARATOR)
    ensures WordLength(w + rest) == |w|
    decreases |w|
  {
    if w == [] {
      assert w + rest == rest;
    } else {
      assert (w + rest)[1..] == w[1..] + rest;
      WordLengthOf(w[1..], rest);
    }
  }

  /** Splitting a joined path gives its components back. */
  lemma {:induction false} WordsOfJoin(words: seq<seq<Byte>>)
    requires Components(words)
    ensures Words(Join(words)) == words
    decreases |words|
  {
    if words != [] {
      var w, rest := words[0], Join(words[1..]);
      assert ([SEPARATOR] + w + rest)[1..] == w + rest;
      WordLengthOf(w, rest);
      assert (w + rest)[..|w|] == w && (w + rest)[|w|..] == rest;
      WordsOfJoin(words[1..]);
    }
  }

  /** `strrchr`: where the text after the last separator starts. */
  function NameStart(s: seq<Byte>): (i: nat)
    ensures i <= |s| && Plain(s[i..]) && (i > 0 ==> s[i - 1] == SEPARATOR)
  {
    if s == [] then 0
    else if s[|s| - 1] == SEPARATOR then |s|
    else
      var i := NameStart(s[..|s| - 1]);
      assert s[i..] == s[..|s| - 1][i..] + [s[|s| - 1]];
      i
  }

  /** The components and the file name an open takes from the part of a path behind the device. */
  function OpenParts(s: seq<Byte>): (seq<seq<Byte>>, seq<Byte>) {
    (Words(s[..NameStart(s)]), s[NameStart(s)..])
  }

  lemma {:induction false} NameStartOf(before: seq<Byte>, name: seq<Byte>)
    requires Plain(name)
    ensures NameStart(before + [SEPARATOR] + name) == |before| + 1
    decreases |name|
  {
    var s := before + [SEPARATOR] + name;
    if name != [] {
      assert s[..|s| - 1] == before + [SEPARATOR] + name[..|name| - 1];
      NameStartOf(before, name[..|name| - 1]);
    }
  }

  lemma TrailingSeparator(words: seq<seq<Byte>>)
    requires Components(words)
    ensures Words(Join(words) + [SEPARATOR]) == words
  {
    hide Words, Join;
    WordsOfJoin(words);
    WordsSplit(Join(words), []);
    assert Join(words) + [SEPARATOR] + [] == Join(words) + [SEPARATOR];
  }

  /** The path of an entry listed under a directory path is split into that directory's components and
      the entry's name. */
  lemma PathOfListedEntry(words: seq<seq<Byte>>, name: seq<Byte>)
    requires Components(words) && Plain(name)
    ensures Words(Join(words)) == words
    ensures OpenParts(Join(words) + [92] + name) == (words, name)
  {
    var s := Join(words) + [SEPARATOR] + name;
    WordsOfJoin(words);
    NameStartOf(Join(words), name);
    TrailingSeparator(words);
    assert s[..|Join(words)| + 1] == Join(words) + [SEPARATOR];
    assert s[|Join(words)| + 1..] == name;
  }
}
