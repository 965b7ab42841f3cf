/** The protocol applied to a file of the partition: its chunks are the blocks the reader finds, and every
    run of `read_file` is a run of the protocol's copying thread. */
module CopyOfFile {
  import opened Bytes
  import opened Volume
  import opened BlockMap
  import opened IndirectMap
  import opened FileContents
  import opened CopyProtocol
  import opened Holes

  /** What `read_file` writes for block k. */
  function Chunk(fs: Fs, inode: seq<Byte>, lost: set<nat>, k: nat): (chunk: seq<Byte>)
    requires fs.Valid() && ValidInode(inode) && Readable(fs, inode, lost) && k < FileBlockCount(fs, inode)
    ensures chunk != []
  {
    ReadableAnswers(fs, inode, lost);
    fs.Block(Target(fs, inode, lost, k))[..ChunkLength(fs, inode, k)]
  }

  function ConfigOf(fs: Fs, inode: seq<Byte>, lost: set<nat>): (c: Config)
    requires fs.Valid() && ValidInode(inode) && Readable(fs, inode, lost)
    ensures c.Valid() && |c.chunks| == FileBlockCount(fs, inode) && c.viaExtents == UsesExtents(inode)
  {
    Config(seq(FileBlockCount(fs, inode), k requires 0 <= k < FileBlockCount(fs, inode) => Chunk(fs, inode, lost, k)),
           UsesExtents(inode))
  }

  lemma {:induction false} WrittenIsBlocks(fs: Fs, inode: seq<Byte>, lost: set<nat>, i: nat)
    requires fs.Valid() && ValidInode(inode) && Readable(fs, inode, lost) && i < FileBlockCount(fs, inode)
    ensures forall k :: 0 <= k < i ==> Answered(fs, inode, lost, k)
    ensures ConfigOf(fs, inode, lost).Written(i) == BlocksUpTo(fs, inode, lost, i)
  {
    hide Answered, Target, Readable, Fs.Block, FileBlockCount;
    ReadableAnswers(fs, inode, lost);
    if i > 0 {
      WrittenIsBlocks(fs, inode, lost, i - 1);
      var block := fs.Block(Target(fs, inode, lost, i - 1));
      assert block[..fs.blockSize] == block;
    }
  }

  /** The chunks are non-empty and their concatenation is what the reader takes for the file. */
  lemma ConfigIsTheFile(fs: Fs, inode: seq<Byte>, lost: set<nat>)
    requires fs.Valid() && ValidInode(inode) && Readable(fs, inode, lost)
    ensures ConfigOf(fs, inode, lost).Valid() && ConfigOf(fs, inode, lost).Source() == ReadContents(fs, inode, lost)
  {
    hide Answered, Target, Readable, Fs.Block;
    var c, n := ConfigOf(fs, inode, lost), FileBlockCount(fs, inode);
    CeilDivBounds(Size(inode), fs.blockSize);
    if n > 0 {
      ContentsByBlocks(fs, inode, lost);
      WrittenIsBlocks(fs, inode, lost, n - 1);
    }
  }

  /** The copy protocol's promise in terms of the partition, whatever the interleaving: an OK result means
      that the local file is what the reader finds, and that is the file the format describes if and only
      if every block is read right. Any result leaves a prefix behind. */
  lemma CopyIsHonest(fs: Fs, inode: seq<Byte>, lost: set<nat>, tr: seq<State>, i: nat)
    requires fs.Valid() && ValidInode(inode) && Readable(fs, inode, lost)
    requires Execution(ConfigOf(fs, inode, lost), tr) && i < |tr|
    ensures tr[i].poller == Returned(FileOk) ==> tr[i].file == ReadContents(fs, inode, lost)
    ensures tr[i].poller == Returned(FileOk) && Described(fs, inode) ==>
              (tr[i].file == Contents(fs, inode) <==> ReadsRight(fs, inode, lost))
    ensures IsPrefix(tr[i].file, ReadContents(fs, inode, lost))
    ensures tr[i].poller.Returned? ==> tr[i].copier == Finished
  {
    hide Readable, Described, ReadsRight, ConfigOf, Contents, ReadContents;
    ConfigIsTheFile(fs, inode, lost);
    ResultIsHonest(ConfigOf(fs, inode, lost), tr, i);
    if Described(fs, inode) {
      CopyExact(fs, inode, lost);
    }
  }

  /** When an OK result means the right bytes although nothing reports a failed read of the double-indirect block:
      exactly when none is needed or the very first one succeeds. */
  lemma OkMeansTheFileExact(fs: Fs, inode: seq<Byte>, lost: set<nat>, tr: seq<State>, i: nat)
    requires fs.Valid() && ValidInode(inode) && PlainPointerFile(fs, inode) && Readable(fs, inode, lost)
    requires Execution(ConfigOf(fs, inode, lost), tr) && i < |tr| && tr[i].poller == Returned(FileOk)
    ensures Described(fs, inode)
    ensures tr[i].file == Contents(fs, inode) <==>
            FileBlockCount(fs, inode) <= IND_BLOCK + fs.AddrPerBlock() || IND_BLOCK + fs.AddrPerBlock() !in lost
  {
    hide Readable, ReadsRight, ConfigOf, Contents, ReadContents, Mapped;
    CopyIsHonest(fs, inode, lost, tr, i);
    LostReadSpoils(fs, inode, lost);
  }

  // ----- runs of the copying thread alone -----

  /** What may happen between two of its steps: the polling thread does not touch its words, except that
      it may raise the cancel flag. */
  predicate EnvStep(s: State, s': State) {
    s'.copier == s.copier && s'.file == s.file && s'.error == s.error && (s.intFlag ==> s'.intFlag)
  }

  predicate CopierRun(c: Config, tr: seq<State>) {
    |tr| > 0 && forall i :: 0 <= i < |tr| - 1 ==> CopierStep(c, tr[i], tr[i + 1]) || EnvStep(tr[i], tr[i + 1])
  }

  lemma PollerIsEnvironment(c: Config, s: State, s': State)
    requires PollerStep(c, s, s')
    ensures EnvStep(s, s')
  {
  }

  /** Seen from the copying thread, every execution of the protocol is such a run. */
  lemma ExecutionIsCopierRun(c: Config, tr: seq<State>)
    requires Execution(c, tr)
    ensures CopierRun(c, tr)
  {
    hide CopierStep, PollerStep, EnvStep;
    forall i | 0 <= i < |tr| - 1
      ensures CopierStep(c, tr[i], tr[i + 1]) || EnvStep(tr[i], tr[i + 1])
    {
      assert Next(c, tr[i], tr[i + 1]);
      if PollerStep(c, tr[i], tr[i + 1]) {
        PollerIsEnvironment(c, tr[i], tr[i + 1]);
      }
    }
  }

  /** A run has reached program point p with these values of the words the thread sees; `contents` is the
      local file, which held `before` at the start. */
  ghost predicate Reached(c: Config, run: seq<State>, p: Copier, before: seq<Byte>, contents: seq<Byte>,
                          intFlag: bool, error: bool) {
    CopierRun(c, run) &&
    var s := run[|run| - 1];
    s.copier == p && before + s.file == contents && s.intFlag == intFlag && s.error == error
  }

  lemma Extend(c: Config, run: seq<State>, s: State)
    requires CopierRun(c, run) && (CopierStep(c, run[|run| - 1], s) || EnvStep(run[|run| - 1], s))
    ensures CopierRun(c, run + [s])
  {
  }

  /** The flag is raised meanwhile, or nothing happens. */
  lemma Meanwhile(c: Config, run: seq<State>, p: Copier, before: seq<Byte>, contents: seq<Byte>,
                  intFlag: bool, error: bool, intFlag': bool) returns (run': seq<State>)
    requires Reached(c, run, p, before, contents, intFlag, error) && (intFlag ==> intFlag')
    ensures Reached(c, run', p, before, contents, intFlag', error) && run <= run'
  {
    hide CopierStep;
    var s := run[|run| - 1].(intFlag := intFlag');
    Extend(c, run, s);
    run' := run + [s];
  }

  /** A step to another program point that leaves the file alone. */
  lemma Move(c: Config, run: seq<State>, p: Copier, before: seq<Byte>, contents: seq<Byte>,
             intFlag: bool, error: bool, p': Copier, error': bool) returns (run': seq<State>)
    requires Reached(c, run, p, before, contents, intFlag, error)
    requires forall s: State :: s.copier == p && s.intFlag == intFlag && s.error == error ==>
               CopierStep(c, s, s.(copier := p', error := error'))
    ensures Reached(c, run', p', before, contents, intFlag, error') && run <= run'
  {
    hide CopierStep;
    var s := run[|run| - 1].(copier := p', error := error');
    Extend(c, run, s);
    run' := run + [s];
  }

  /** A WriteFile call that put down the first n bytes of chunk k. */
  lemma WroteSome(c: Config, run: seq<State>, k: nat, before: seq<Byte>, contents: seq<Byte>,
                  intFlag: bool, n: nat) returns (run': seq<State>)
    requires Reached(c, run, Fetch(k), before, contents, intFlag, false) && k < |c.chunks| && n <= |c.chunks[k]|
    ensures Reached(c, run', Write(k, n), before, contents + c.chunks[k][..n], intFlag, false) && run <= run'
  {
    run' := Move(c, run, Fetch(k), before, contents, intFlag, false, Write(k, 0), false);
    if n > 0 {
      var s := run'[|run'| - 1];
      var t := s.(copier := Write(k, n), file := s.file + c.chunks[k][0..n]);
      assert PutDown(c, s, t, k, 0, n);
      Extend(c, run', t);
      assert before + (s.file + c.chunks[k][..n]) == (before + s.file) + c.chunks[k][..n];
      run' := run' + [t];
    } else {
      assert contents + [] == contents;
    }
  }

  /** The device fails while chunk k is fetched. */
  lemma FetchFails(c: Config, run: seq<State>, k: nat, before: seq<Byte>, contents: seq<Byte>, intFlag: bool)
    returns (run': seq<State>)
    requires Reached(c, run, Fetch(k), before, contents, intFlag, false)
    ensures Reached(c, run', Failing, before, contents, intFlag, false) && run <= run'
  {
    hide Reached;
    run' := Move(c, run, Fetch(k), before, contents, intFlag, false, Failing, false);
  }

  /** The lookup of chunk k's block dies. */
  lemma LookupDied(c: Config, run: seq<State>, k: nat, before: seq<Byte>, contents: seq<Byte>, intFlag: bool)
    returns (run': seq<State>)
    requires Reached(c, run, Fetch(k), before, contents, intFlag, false)
    ensures Reached(c, run', Crashed, before, contents, intFlag, false) && run <= run'
  {
    hide Reached;
    run' := Move(c, run, Fetch(k), before, contents, intFlag, false, Crashed, false);
  }

  /** The WriteFile call returns. */
  lemma WriteEnds(c: Config, run: seq<State>, k: nat, n: nat, ok: bool, before: seq<Byte>, contents: seq<Byte>,
                  intFlag: bool) returns (run': seq<State>)
    requires Reached(c, run, Write(k, n), before, contents, intFlag, false)
    requires k < |c.chunks| && n <= |c.chunks[k]| && (ok ==> n == |c.chunks[k]|)
    ensures Reached(c, run', if !ok then Failing else if k + 1 < |c.chunks| then CheckFlag(k + 1) else Leaving,
                    before, contents, intFlag, false) && run <= run'
  {
    hide Reached;
    var p := if !ok then Failing else if k + 1 < |c.chunks| then CheckFlag(k + 1) else Leaving;
    run' := Move(c, run, Write(k, n), before, contents, intFlag, false, p, false);
  }

  /** The loop's test in front of chunk k. */
  lemma FlagTested(c: Config, run: seq<State>, k: nat, before: seq<Byte>, contents: seq<Byte>, intFlag: bool)
    returns (run': seq<State>)
    requires Reached(c, run, CheckFlag(k), before, contents, intFlag, false)
    ensures Reached(c, run', if k + 1 < |c.chunks| && !intFlag then Fetch(k) else FinalCheck(k),
                    before, contents, intFlag, false) && run <= run'
  {
    hide Reached;
    var p := if k + 1 < |c.chunks| && !intFlag then Fetch(k) else FinalCheck(k);
    run' := Move(c, run, CheckFlag(k), before, contents, intFlag, false, p, false);
  }

  /** The test after the loop. */
  lemma FinallyTested(c: Config, run: seq<State>, k: nat, before: seq<Byte>, contents: seq<Byte>, intFlag: bool)
    returns (run': seq<State>)
    requires Reached(c, run, FinalCheck(k), before, contents, intFlag, false)
    ensures run <= run'
    ensures if !intFlag then Reached(c, run', Fetch(k), before, contents, intFlag, false)
            else if c.viaExtents && k == 0 then Reached(c, run', Crashed, before, contents, intFlag, true)
            else Reached(c, run', Failing, before, contents, intFlag, false)
  {
    hide Reached;
    var p := if !intFlag then Fetch(k) else if c.viaExtents && k == 0 then Crashed else Failing;
    run' := Move(c, run, FinalCheck(k), before, contents, intFlag, false, p, p == Crashed);
  }

  lemma FailureReported(c: Config, run: seq<State>, before: seq<Byte>, contents: seq<Byte>, intFlag: bool)
    returns (run': seq<State>)
    requires Reached(c, run, Failing, before, contents, intFlag, false)
    ensures Reached(c, run', Leaving, before, contents, intFlag, true) && run <= run'
  {
    hide Reached;
    run' := Move(c, run, Failing, before, contents, intFlag, false, Leaving, true);
  }

  /** The thread starts and clears the error word. */
  lemma Started(c: Config, before: seq<Byte>, intFlag: bool) returns (run: seq<State>)
    ensures Reached(c, run, Starting, before, before, intFlag, false) 
    ensures |run| > 0 && run[0].copier == NotStarted && run[0].file == []
  {
    run := [State(NotStarted, AskSize, false, intFlag, [], true)];
    assert before + [] == before;
    run := Move(c, run, NotStarted, before, before, intFlag, false, Starting, false);
  }

  lemma LoadFails(c: Config, run: seq<State>, before: seq<Byte>, contents: seq<Byte>, intFlag: bool)
    returns (run': seq<State>)
    requires Reached(c, run, Starting, before, contents, intFlag, false)
    ensures Reached(c, run', Leaving, before, contents, intFlag, true) && run <= run'
  {
    hide Reached;
    run' := Move(c, run, Starting, before, contents, intFlag, false, Failing, false);
    run' := FailureReported(c, run', before, contents, intFlag);
  }

  lemma InodeLoaded(c: Config, run: seq<State>, before: seq<Byte>, contents: seq<Byte>, intFlag: bool)
    returns (run': seq<State>)
    requires Reached(c, run, Starting, before, contents, intFlag, false)
    ensures Reached(c, run', if c.chunks == [] then Leaving else CheckFlag(0), before, contents, intFlag, false) &&
            run <= run'
  {
    hide Reached;
    var p := if c.chunks == [] then Leaving else CheckFlag(0);
    run' := Move(c, run, Starting, before, contents, intFlag, false, p, false);
  }

  /** Along such a run the file holds what the program point says. */
  lemma {:induction false} RunMatches(c: Config, run: seq<State>, i: nat)
    requires c.Valid() && CopierRun(c, run) && i < |run| && run[0].copier == NotStarted && run[0].file == []
    ensures FileMatches(c, run[i])
  {
    hide CopierStep, FileMatches, Config.Written;
    if i > 0 {
      RunMatches(c, run, i - 1);
      assert CopierStep(c, run[i - 1], run[i - 1 + 1]) || EnvStep(run[i - 1], run[i - 1 + 1]);
      if CopierStep(c, run[i - 1], run[i]) {
        if run[i - 1].copier.Write? {
          WriteKeepsMatch(c, run[i - 1], run[i]);
        } else {
          QuietStepKeepsMatch(c, run[i - 1], run[i]);
        }
      } else {
        PollingKeepsMatch(c, run[i - 1], run[i]);
      }
    } else {
      NothingAtStart(c, run[0]);
    }
  }

  lemma NothingAtStart(c: Config, s: State)
    requires s.copier == NotStarted && s.file == []
    ensures FileMatches(c, s)
  {
  }

  /** A run that has crashed has not copied everything. */
  lemma CrashedIsIncomplete(c: Config, run: seq<State>, before: seq<Byte>, contents: seq<Byte>, intFlag: bool,
                            error: bool)
    requires c.Valid() && Reached(c, run, Crashed, before, contents, intFlag, error)
    requires run[0].copier == NotStarted && run[0].file == []
    ensures contents != before + c.Source()
  {
    hide CopierStep, Config.Written;
    RunMatches(c, run, |run| - 1);
  }

  /** Chunk k is what the block map yields, cut to the right length. */
  lemma ChunkOfBlock(fs: Fs, inode: seq<Byte>, lost: set<nat>, k: nat)
    requires fs.Valid() && ValidInode(inode) && Readable(fs, inode, lost) && k < FileBlockCount(fs, inode)
    ensures k + 1 < FileBlockCount(fs, inode) ==> ChunkLength(fs, inode, k) == fs.blockSize
    ensures Answered(fs, inode, lost, k)
    ensures ConfigOf(fs, inode, lost).chunks[k] == fs.Block(Target(fs, inode, lost, k))[..ChunkLength(fs, inode, k)]
  {
  }
}
