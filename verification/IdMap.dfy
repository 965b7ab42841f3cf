/** The flattened map from (disk, partition number) to the index in that disk's table, and the check that
    guards it. */
module IdMap {
  import opened ExtPartitions

  /** For every disk the partition numbers of its table, as mounting leaves them. */
  type Tables = seq<seq<nat>>

  predicate ValidTables(t: Tables) {
    forall i :: 0 <= i < |t| ==> Numbering(t[i])
  }

  /** The largest number of a table: the length of its region in the map. */
  function MaxNo(t: seq<nat>): nat {
    if t == [] then 0 else t[|t| - 1]
  }

  /** First position of disk i's region: after one header per disk and the regions before it. */
  function Start(t: Tables, i: nat): nat
    requires i <= |t|
  {
    if i == 0 then |t| else Start(t, i - 1) + MaxNo(t[i - 1])
  }

  lemma {:induction false} StartMonotone(t: Tables, i: nat, j: nat)
    requires i <= j <= |t|
    ensures Start(t, i) <= Start(t, j)
    ensures i < j ==> Start(t, i) + MaxNo(t[i]) <= Start(t, j)
    decreases j - i
  {
    if i < j {
      StartMonotone(t, i, j - 1);
    }
  }

  /** A number of a well-numbered table lies between 1 and its maximum. */
  lemma NumberInRange(t: seq<nat>, j: nat)
    requires Numbering(t) && j < |t|
    ensures 1 <= t[j] <= MaxNo(t)
  {
  }

  /** What the region of disk i holds once its first n entries are entered; position x stands for number
      x - Start + 1. */
  predicate RegionOk(t: Tables, i: nat, n: nat, m: seq<nat>)
    requires i < |t| && n <= |t[i]| && Start(t, i) + MaxNo(t[i]) <= |m|
  {
    forall x :: Start(t, i) <= x < Start(t, i) + MaxNo(t[i]) ==> m[x] == Entry(t[i], n, x - Start(t, i) + 1)
  }

  /** The index of number p among the first n numbers of a table, 0 if it is not there. */
  function Entry(t: seq<nat>, n: nat, p: nat): nat
    requires n <= |t|
  {
    if n == 0 then 0 else if t[n - 1] == p then n - 1 else Entry(t, n - 1, p)
  }

  lemma {:induction false} EntryIsIndex(t: seq<nat>, n: nat, p: nat)
    requires Numbering(t) && n <= |t|
    ensures (exists j :: 0 <= j < n && t[j] == p) ==> Entry(t, n, p) < n && t[Entry(t, n, p)] == p
    ensures (forall j :: 0 <= j < n ==> t[j] != p) ==> Entry(t, n, p) == 0
  {
    if n > 0 && t[n - 1] != p {
      EntryIsIndex(t, n - 1, p);
    }
  }

  /** Header of disk i. */
  function HeaderOf(t: Tables, i: nat): nat
    requires i < |t|
  {
    if t[i] == [] then 0 else Start(t, i)
  }

  /** The complete map: headers, then the regions. */
  predicate IsIdMap(t: Tables, m: seq<nat>) {
    && |m| == Start(t, |t|)
    && (forall i :: 0 <= i < |t| ==> |t| <= Start(t, i) && Start(t, i) + MaxNo(t[i]) <= |m|)
    && (forall i :: 0 <= i < |t| ==> i < |m| && m[i] == HeaderOf(t, i))
    && (forall i :: 0 <= i < |t| ==> RegionOk(t, i, |t[i]|, m))
  }

  lemma RegionsInside(t: Tables)
    ensures forall i :: 0 <= i <= |t| ==> |t| <= Start(t, i) <= Start(t, |t|)
    ensures forall i :: 0 <= i < |t| ==> Start(t, i) + MaxNo(t[i]) <= Start(t, |t|)
    ensures forall i, j :: 0 <= i < j < |t| ==> Start(t, i) + MaxNo(t[i]) <= Start(t, j)
  {
    forall i | 0 <= i <= |t|
      ensures |t| <= Start(t, i) <= Start(t, |t|) && (i < |t| ==> Start(t, i) + MaxNo(t[i]) <= Start(t, |t|))
    {
      StartMonotone(t, 0, i);
      StartMonotone(t, i, |t|);
    }
    forall i, j | 0 <= i < j < |t|
      ensures Start(t, i) + MaxNo(t[i]) <= Start(t, j)
    {
      StartMonotone(t, i, j);
    }
  }

  /** The inner loop of `init_ext2_partitions_id_map`: one disk's region. */
  method FillRegion(m: array<nat>, t: Tables, i: nat, pos: nat)
    requires ValidTables(t) && i < |t| && pos == Start(t, i) && Start(t, i) + MaxNo(t[i]) <= m.Length
    requires forall x :: pos <= x < pos + MaxNo(t[i]) ==> m[x] == 0
    modifies m
    ensures RegionOk(t, i, |t[i]|, m[..])
    ensures forall x :: 0 <= x < m.Length && !(pos <= x < pos + MaxNo(t[i])) ==> m[x] == old(m[x])
  {
    for j := 0 to |t[i]|
      invariant RegionOk(t, i, j, m[..])
      invariant forall x :: 0 <= x < m.Length && !(pos <= x < pos + MaxNo(t[i])) ==> m[x] == old(m[x])
    {
      NumberInRange(t[i], j);
      var index := pos + t[i][j] - 1;
      m[index] := j;
    }
  }

  /** Disks 0 .. n - 1 are entered, and nothing lies beyond their regions. */
  predicate FilledTo(t: Tables, n: nat, m: seq<nat>)
    requires n <= |t| && |m| == Start(t, |t|)
  {
    RegionsInside(t);
    && (forall k :: 0 <= k < n ==> m[k] == HeaderOf(t, k) && RegionOk(t, k, |t[k]|, m))
    && (forall x :: Start(t, n) <= x < |m| ==> m[x] == 0)
  }

  /** Entering disk i changes its header and its region only. */
  lemma FilledStep(t: Tables, i: nat, before: seq<nat>, after: seq<nat>)
    requires i < |t| && |before| == |after| == Start(t, |t|)
    requires FilledTo(t, i, before)
    requires Start(t, i) + MaxNo(t[i]) <= |after| && i < |after|
    requires forall x :: 0 <= x < |before| && x != i && !(Start(t, i) <= x < Start(t, i) + MaxNo(t[i])) ==>
            after[x] == before[x]
    requires after[i] == HeaderOf(t, i) && RegionOk(t, i, |t[i]|, after)
    ensures FilledTo(t, i + 1, after)
  {
    RegionsInside(t);
    forall k | 0 <= k < i
      ensures after[k] == HeaderOf(t, k) && RegionOk(t, k, |t[k]|, after)
    {
      assert before[k] == HeaderOf(t, k) && RegionOk(t, k, |t[k]|, before);
    }
  }

  /** The body of the outer loop. */
  method EnterDisk(m: array<nat>, t: Tables, i: nat, pos: nat)
    requires ValidTables(t) && i < |t| && pos == Start(t, i) && m.Length == Start(t, |t|) && FilledTo(t, i, m[..])
    modifies m
    ensures FilledTo(t, i + 1, m[..])
  {
    hide FilledTo, RegionOk;
    ghost var before := m[..];
    RegionsInside(t);
    BlankRegion(t, i, before);
    if |t[i]| > 0 {
      m[i] := pos;
      FillRegion(m, t, i, pos);
    } else {
      m[i] := 0;
      EmptyRegion(t, i, m[..]);
    }
    FilledStep(t, i, before, m[..]);
  }

  lemma BlankRegion(t: Tables, i: nat, m: seq<nat>)
    requires i < |t| && |m| == Start(t, |t|) && FilledTo(t, i, m)
    ensures forall x :: Start(t, i) <= x < |m| ==> m[x] == 0
  {
  }

  lemma EmptyRegion(t: Tables, i: nat, m: seq<nat>)
    requires i < |t| && t[i] == [] && Start(t, i) <= |m|
    ensures RegionOk(t, i, |t[i]|, m)
  {
  }

  /** `init_ext2_partitions_id_map`: every write stays inside disks + sum of maxima. */
  method InitIdMap(t: Tables) returns (m: array<nat>)
    requires ValidTables(t)
    ensures IsIdMap(t, m[..])
  {
    hide FilledTo, IsIdMap, HeaderOf, ValidTables;
    RegionsInside(t);
    m := new nat[Start(t, |t|)](_ => 0);
    var pos := |t|;
    NothingFilled(t, m[..]);
    for i := 0 to |t|
      invariant pos == Start(t, i) && m.Length == Start(t, |t|) && FilledTo(t, i, m[..])
    {
      EnterDisk(m, t, i, pos);
      pos := pos + if |t[i]| > 0 then t[i][|t[i]| - 1] else 0;
    }
    AllFilled(t, m[..]);
  }

  lemma NothingFilled(t: Tables, m: seq<nat>)
    requires |m| == Start(t, |t|) && forall x :: 0 <= x < |m| ==> m[x] == 0
    ensures FilledTo(t, 0, m)
  {
  }

  lemma AllFilled(t: Tables, m: seq<nat>)
    requires |m| == Start(t, |t|) && FilledTo(t, |t|, m)
    ensures IsIdMap(t, m)
  {
    RegionsInside(t);
  }

  // ----- lookups -----

  /** `validate_disk_and_part_no`. */
  predicate Validated(t: Tables, disk: int, part: int) {
    0 <= disk < |t| && part >= 0 && t[disk] != [] && part <= MaxNo(t[disk])
  }

  /** `get_partition_index_via_real_number`. */
  function Lookup(t: Tables, m: seq<nat>, disk: nat, part: nat): nat
    requires IsIdMap(t, m) && ValidTables(t) && Validated(t, disk, part)
  {
    LookupInside(t, m, disk, part);
    m[m[disk] + part - 1]
  }

  lemma LookupInside(t: Tables, m: seq<nat>, disk: nat, part: nat)
    requires IsIdMap(t, m) && ValidTables(t) && Validated(t, disk, part)
    ensures disk < |m| && m[disk] == Start(t, disk) && 0 <= m[disk] + part - 1 < |m|
  {
  }

  /** Exactly the listed numbers are mapped to their own entry: the map inverts every table, and a
      number that passes the range check without being listed is sent to some other entry. */
  lemma LookupExact(t: Tables, m: seq<nat>, disk: nat, part: nat)
    requires IsIdMap(t, m) && ValidTables(t) && Validated(t, disk, part)
    ensures var j := Lookup(t, m, disk, part);
            (j < |t[disk]| && t[disk][j] == part) <==> part in t[disk]
    ensures 1 <= part && part !in t[disk] ==> Lookup(t, m, disk, part) == 0
  {
    if part > 0 {
      LookupIsEntry(t, m, disk, part);
      EntryIsIndex(t[disk], |t[disk]|, part);
    } else {
      assert part !in t[disk];
    }
  }

  lemma LookupIsEntry(t: Tables, m: seq<nat>, disk: nat, part: nat)
    requires IsIdMap(t, m) && ValidTables(t) && Validated(t, disk, part) && part > 0
    ensures Lookup(t, m, disk, part) == Entry(t[disk], |t[disk]|, part)
  {
  }

  /** Looking up the number of entry j gives j. */
  lemma LookupInverts(t: Tables, m: seq<nat>, disk: nat, j: nat)
    requires IsIdMap(t, m) && ValidTables(t) && disk < |t| && j < |t[disk]|
    ensures Validated(t, disk, t[disk][j]) && Lookup(t, m, disk, t[disk][j]) == j
  {
    NumberInRange(t[disk], j);
    LookupExact(t, m, disk, t[disk][j]);
    NumbersDistinct(t[disk]);
  }

  lemma NumbersDistinct(t: seq<nat>)
    requires Numbering(t)
    ensures forall i, j :: 0 <= i < |t| && 0 <= j < |t| && t[i] == t[j] ==> i == j
  {
  }

  /** Number 0 passes the check but is not guarded by the map: with one disk holding one partition, the
      lookup reads the disk's own header and returns an index past the table. */
  lemma ZeroPassesTheCheck()
    ensures var t, m := [[1]], [1, 0];
            IsIdMap(t, m) && ValidTables(t) && Validated(t, 0, 0) && Lookup(t, m, 0, 0) == 1 == |t[0]|
  {
  }
}
