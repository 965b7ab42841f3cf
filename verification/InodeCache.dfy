/** The queue of cached inode-table groups as a pure state machine, and what holds over whole runs. */
module InodeCache {
  const MAX_GROUP_DESC_QUEUE_LEN := 100

  /** One request for an inode of `group`; `readOk` tells whether the table read of a miss succeeds. */
  datatype Request = Request(group: nat, readOk: bool)

  /** A full queue gives up its oldest group before the read is even tried. */
  function Evicted(q: seq<nat>): seq<nat> {
    if |q| >= MAX_GROUP_DESC_QUEUE_LEN then q[1..] else q
  }

  function Next(q: seq<nat>, r: Request): seq<nat> {
    if r.group in q then q
    else if r.readOk then Evicted(q) + [r.group]
    else Evicted(q)
  }

  function Run(q: seq<nat>, rs: seq<Request>): seq<nat>
    decreases |rs|
  {
    if rs == [] then q else Run(Next(q, rs[0]), rs[1..])
  }

  /** The groups a run loads, in order. */
  function Loads(q: seq<nat>, rs: seq<Request>): seq<nat>
    decreases |rs|
  {
    if rs == [] then []
    else Loaded(q, rs[0]) + Loads(Next(q, rs[0]), rs[1..])
  }

  function Loaded(q: seq<nat>, r: Request): seq<nat> {
    if r.group !in q && r.readOk then [r.group] else []
  }

  /** The group a request makes the queue give up. */
  function GivenUp(q: seq<nat>, r: Request): seq<nat> {
    if r.group !in q && |q| >= MAX_GROUP_DESC_QUEUE_LEN then [q[0]] else []
  }

  /** The groups a run gives up, in order. */
  function Evictions(q: seq<nat>, rs: seq<Request>): seq<nat>
    decreases |rs|
  {
    if rs == [] then [] else GivenUp(q, rs[0]) + Evictions(Next(q, rs[0]), rs[1..])
  }

  /** The number of requests a run cannot serve from the cache. */
  function Misses(q: seq<nat>, rs: seq<Request>): nat
    decreases |rs|
  {
    if rs == [] then 0
    else (if rs[0].group in q then 0 else 1) + Misses(Next(q, rs[0]), rs[1..])
  }

  predicate Sound(q: seq<nat>) {
    |q| <= MAX_GROUP_DESC_QUEUE_LEN && forall i, j :: 0 <= i < j < |q| ==> q[i] != q[j]
  }

  /** Every run keeps the queue duplicate-free and within its bound. */
  lemma {:induction false} RunKeepsSound(q: seq<nat>, rs: seq<Request>)
    requires Sound(q)
    ensures Sound(Run(q, rs))
    decreases |rs|
  {
    if rs != [] {
      RunKeepsSound(Next(q, rs[0]), rs[1..]);
    }
  }

  /** First in, first out over every run: the groups given up, in order, followed by the groups still
      cached, are the initial queue followed by everything loaded since. */
  lemma {:induction false} FirstInFirstOut(q: seq<nat>, rs: seq<Request>)
    ensures Evictions(q, rs) + Run(q, rs) == q + Loads(q, rs)
    decreases |rs|
  {
    if rs == [] {
      assert Evictions(q, rs) + q == q + Loads(q, rs);
    } else {
      hide Next, GivenUp, Loaded;
      var q' := Next(q, rs[0]);
      FirstInFirstOut(q', rs[1..]);
      StepConserves(q, rs[0]);
      Regroup(GivenUp(q, rs[0]), Evictions(q', rs[1..]), Run(q', rs[1..]), q', Loads(q', rs[1..]), q, Loaded(q, rs[0]));
    }
  }

  lemma Regroup(gone: seq<nat>, gone': seq<nat>, left: seq<nat>, q': seq<nat>, loads': seq<nat>, q: seq<nat>,
          loaded: seq<nat>)
    requires gone' + left == q' + loads' && gone + q' == q + loaded
    ensures (gone + gone') + left == q + (loaded + loads')
  {
    assert (gone + gone') + left == gone + (gone' + left);
    assert gone + (q' + loads') == (gone + q') + loads';
    assert (q + loaded) + loads' == q + (loaded + loads');
  }

  lemma StepConserves(q: seq<nat>, r: Request)
    ensures GivenUp(q, r) + Next(q, r) == q + Loaded(q, r)
  {
  }

  /** Groups loaded after the one at index i. */
  function Younger(q: seq<nat>, i: nat): nat
    requires i < |q|
  {
    |q| - 1 - i
  }

  /** A group survives until 100 misses after its own load: with y younger groups behind it, any run
      with at most 99 - y misses leaves it cached, whether or not the reads succeed. */
  lemma {:induction false} Resident(q: seq<nat>, i: nat, rs: seq<Request>)
    requires Sound(q) && i < |q| && Younger(q, i) + Misses(q, rs) < MAX_GROUP_DESC_QUEUE_LEN
    ensures q[i] in Run(q, rs)
    decreases |rs|
  {
    if rs != [] {
      var q' := Next(q, rs[0]);
      RunKeepsSound(q, [rs[0]]);
      assert Run(q, [rs[0]]) == q';
      if rs[0].group in q {
        Resident(q, i, rs[1..]);
      } else {
        Resident(q', if |q| >= MAX_GROUP_DESC_QUEUE_LEN then i - 1 else i, rs[1..]);
      }
    }
  }

  /** No run misses more often than it asks. */
  lemma {:induction false} MissesBounded(q: seq<nat>, rs: seq<Request>)
    ensures Misses(q, rs) <= |rs|
    decreases |rs|
  {
    if rs != [] {
      MissesBounded(Next(q, rs[0]), rs[1..]);
    }
  }

  lemma {:induction false} RunCompose(q: seq<nat>, rs: seq<Request>, rs': seq<Request>)
    ensures Run(q, rs + rs') == Run(Run(q, rs), rs')
    decreases |rs|
  {
    if rs == [] {
      assert rs + rs' == rs';
    } else {
      assert (rs + rs')[1..] == rs[1..] + rs';
      RunCompose(Next(q, rs[0]), rs[1..], rs');
    }
  }

  /** From q to q' no table is given up that had so few younger ones that n requests cannot displace it. */
  ghost predicate Keeps(q: seq<nat>, q': seq<nat>, n: nat) {
    forall i :: 0 <= i < |q| && Younger(q, i) + n < MAX_GROUP_DESC_QUEUE_LEN ==> q[i] in q'
  }

  /** At most n requests lead from q to q'. */
  ghost predicate Within(q: seq<nat>, q': seq<nat>, n: nat) {
    exists rs :: |rs| <= n && q' == Run(q, rs)
  }

  lemma NoRequest(q: seq<nat>)
    ensures Within(q, q, 0)
  {
  }

  lemma OneRequest(q: seq<nat>, r: Request)
    ensures Within(q, Next(q, r), 1)
  {
    assert Run(q, [r]) == Run(Next(q, r), []);
  }

  lemma WithinCompose(q: seq<nat>, q': seq<nat>, q'': seq<nat>, n: nat, n': nat)
    requires Within(q, q', n) && Within(q', q'', n')
    ensures Within(q, q'', n + n')
  {
    hide Run;
    var rs :| |rs| <= n && q' == Run(q, rs);
    var rs' :| |rs'| <= n' && q'' == Run(q', rs');
    RunCompose(q, rs, rs');
    assert |rs + rs'| <= n + n';
  }

  /** So a table that n requests cannot displace stays, whatever they ask for and whether or not reads fail. */
  lemma RequestsKeep(q: seq<nat>, q': seq<nat>, n: nat)
    requires Sound(q) && Within(q, q', n)
    ensures Keeps(q, q', n)
  {
    var rs :| |rs| <= n && q' == Run(q, rs);
    MissesBounded(q, rs);
    forall i | 0 <= i < |q| && Younger(q, i) + n < MAX_GROUP_DESC_QUEUE_LEN
      ensures q[i] in q'
    {
      Resident(q, i, rs);
    }
  }

  /** In particular a table just loaded, and every pointer into it, outlives the next 99 misses. */
  lemma JustLoadedIsResident(q: seq<nat>, g: nat, rs: seq<Request>)
    requires Sound(q) && g !in q && Misses(Next(q, Request(g, true)), rs) < MAX_GROUP_DESC_QUEUE_LEN
    ensures g in Run(Next(q, Request(g, true)), rs)
  {
    var q' := Next(q, Request(g, true));
    RunKeepsSound(q, [Request(g, true)]);
    assert Run(q, [Request(g, true)]) == Run(q', []);
    Resident(q', |q'| - 1, rs);
  }

  /** The bound is tight: the 100th miss can evict it. */
  lemma HundredthMissEvicts()
    ensures var full := seq(100, i requires 0 <= i => i);
            Sound(full) && 0 in full && Misses(full, [Request(100, false)]) == 1 &&
            Younger(full, 0) + 1 == MAX_GROUP_DESC_QUEUE_LEN && 0 !in Run(full, [Request(100, false)])
  {
    var full := seq(100, i requires 0 <= i => i);
    assert full[0] == 0;
    assert Run(full, [Request(100, false)]) == Run(full[1..], []);
    assert Misses(full, [Request(100, false)]) == 1 + Misses(full[1..], []);
  }
}
