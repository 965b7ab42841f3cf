/** The listing of the plugin's root: one entry per mounted partition of every disk. */
module RootListing {
  import opened Bytes
  import opened IdMap

  /** A listed partition: disk and index in that disk's table. */
  datatype Position = Position(disk: nat, index: nat)

  /** Everything from entry `index` of `disk` on, in lexicographic order. */
  function Remaining(t: Tables, disk: nat, index: nat): seq<Position>
    decreases |t| - disk, if disk < |t| then |t[disk]| - index else 0
  {
    if disk >= |t| then []
    else if index >= |t[disk]| then Remaining(t, disk + 1, 0)
    else [Position(disk, index)] + Remaining(t, disk, index + 1)
  }

  /** `get_first_ext4_disk_and_part_no`: disk and partition number of the first entry of all. */
  method GetFirst(t: Tables) returns (r: Option<(nat, nat)>)
    ensures r.None? <==> Remaining(t, 0, 0) == []
    ensures r.Some? ==> r.value.0 < |t| && t[r.value.0] != [] && r.value.1 == t[r.value.0][0] &&
                        Remaining(t, r.value.0, 0) == Remaining(t, 0, 0)
  {
    for i := 0 to |t|
      invariant Remaining(t, i, 0) == Remaining(t, 0, 0)
    {
      if |t[i]| > 0 {
        return Some((i, t[i][0]));
      }
    }
    return None;
  }

  /** `get_next_ext4_disk_and_part_no`: the entry after the given one, if any. */
  method GetNext(t: Tables, cur: Position) returns (r: Option<Position>)
    requires cur.disk < |t| && cur.index < |t[cur.disk]|
    ensures r.None? <==> Remaining(t, cur.disk, cur.index) == [cur]
    ensures r.Some? ==> r.value.disk < |t| && r.value.index < |t[r.value.disk]| &&
                        Remaining(t, cur.disk, cur.index) == [cur] + Remaining(t, r.value.disk, r.value.index)
  {
    var j: nat := cur.index + 1;
    for i := cur.disk to |t|
      invariant j >= 0
      invariant Remaining(t, i, j) == Remaining(t, cur.disk, cur.index + 1)
      invariant i > cur.disk ==> j == 0
    {
      if |t[i]| > 0 {
        if j < |t[i]| {
          return Some(Position(i, j));
        }
        j := 0;
      }
    }
    return None;
  }

  predicate Before(p: Position, q: Position) {
    p.disk < q.disk || (p.disk == q.disk && p.index < q.index)
  }

  /** Strictly increasing, so nothing is listed twice. */
  predicate InOrder(l: seq<Position>) {
    forall x, y :: 0 <= x < y < |l| ==> Before(l[x], l[y])
  }

  /** The listing contains exactly the existing entries from its starting point on, each once, in
      lexicographic order. */
  lemma {:induction false} RemainingIsComplete(t: Tables, disk: nat, index: nat)
    ensures forall p: Position :: p in Remaining(t, disk, index) <==> Follows(t, disk, index, p)
    ensures InOrder(Remaining(t, disk, index))
    decreases |t| - disk, if disk < |t| then |t[disk]| - index else 0
  {
    if disk < |t| {
      if index >= |t[disk]| {
        RemainingIsComplete(t, disk + 1, 0);
      } else {
        RemainingIsComplete(t, disk, index + 1);
        OrderedCons(Position(disk, index), Remaining(t, disk, index + 1));
      }
    }
  }

  /** An existing entry at or after the given point. */
  predicate Follows(t: Tables, disk: nat, index: nat, p: Position) {
    p.disk < |t| && p.index < |t[p.disk]| && (p.disk > disk || (p.disk == disk && p.index >= index))
  }

  /** So the whole listing shows every index of every disk's table once, disk by disk and in order. */
  lemma RootIsComplete(t: Tables)
    ensures forall p: Position :: p in Remaining(t, 0, 0) <==> p.disk < |t| && p.index < |t[p.disk]|
    ensures var l := Remaining(t, 0, 0);
            forall x, y :: 0 <= x < y < |l| ==>
              l[x].disk < l[y].disk || (l[x].disk == l[y].disk && l[x].index < l[y].index)
  {
    hide Remaining;
    RemainingIsComplete(t, 0, 0);
  }

  lemma OrderedCons(p: Position, rest: seq<Position>)
    requires InOrder(rest)
    requires forall q :: q in rest ==> Before(p, q)
    ensures InOrder([p] + rest)
  {
  }

  /** A listing of everything: what `FsFindFirst` and repeated `FsFindNext` show of the root. */
  method ListRoot(t: Tables, m: array<nat>) returns (shown: seq<Position>)
    requires ValidTables(t) && IsIdMap(t, m[..])
    ensures shown == Remaining(t, 0, 0)
  {
    hide IsIdMap, ValidTables, Remaining;
    shown := [];
    var first := GetFirst(t);
    if first.None? {
      return;
    }
    var (disk, partNo) := first.value;
    LookupInverts(t, m[..], disk, 0);
    LookupInside(t, m[..], disk, partNo);
    var cur := Position(disk, m[m[disk] + partNo - 1]);
    ghost var all := Remaining(t, 0, 0);
    assert [] + all == all;
    while true
      invariant cur.disk < |t| && cur.index < |t[cur.disk]|
      invariant shown + Remaining(t, cur.disk, cur.index) == all
      decreases |Remaining(t, cur.disk, cur.index)|
    {
      var next := GetNext(t, cur);
      if next.None? {
        return shown + [cur];
      }
      ShowOne(shown, cur, Remaining(t, next.value.disk, next.value.index));
      shown := shown + [cur];
      cur := next.value;
    }
  }

  lemma ShowOne(shown: seq<Position>, cur: Position, rest: seq<Position>)
    ensures shown + ([cur] + rest) == (shown + [cur]) + rest
  {
  }
}
