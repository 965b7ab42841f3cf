/** The two threads of a file copy as one interleaved step system: the copying thread runs `read_file`
    while the polling thread watches the size of the local file, the error word and the user. Every step
    is one shared-memory access, one device operation or one handle operation. */
module CopyProtocol {
  import opened Bytes

  /** The source, cut the way the copying thread writes it; `viaExtents` tells the file's layout. */
  datatype Config = Config(chunks: seq<seq<Byte>>, viaExtents: bool)
  {
    predicate Valid() {
      forall i :: 0 <= i < |chunks| ==> chunks[i] != []
    }

    /** The first i chunks. */
    function Written(i: nat): seq<Byte>
      requires i <= |chunks|
    {
      if i == 0 then [] else Written(i - 1) + chunks[i - 1]
    }

    function Source(): seq<Byte> {
      Written(|chunks|)
    }
  }

  /** Where the copying thread is. `CheckFlag` and `Fetch` are about chunk i; `FinalCheck` is the flag
      test after the loop; `Write` is a WriteFile call that has put down the first `done` bytes; `Leaving` is past the
      last access to shared state but before the thread has ended. */
  datatype Copier =
    | NotStarted
    | Starting
    | CheckFlag(i: nat)
    | FinalCheck(i: nat)
    | Fetch(i: nat)
    | Write(i: nat, done: nat)
    | Failing
    | Leaving
    | Finished
    | Crashed

  datatype Outcome = FileOk | ReadError | UserAbort

  datatype Poller =
    | AskSize
    | AskError(size: nat)
    | Compare(size: nat)
    | Progress
    | SetFlag(o: Outcome)
    | JoinThenClose(o: Outcome)
    | CloseThenJoin
    | JoinAfterClose
    | Returned(o: Outcome)

  datatype State = State(copier: Copier, poller: Poller, error: bool, intFlag: bool, file: seq<Byte>, open: bool)

  predicate Init(s: State) {
    s == State(NotStarted, AskSize, false, false, [], true)
  }

  // ----- the copying thread -----

  /** The next program point and what it does to the shared words and the file; several outcomes where
      the device or the flag decides. */
  predicate CopierStep(c: Config, s: State, s': State) {
    match s.copier
    case NotStarted => s' == s.(copier := Starting, error := false)
    case Starting =>
      || s' == s.(copier := Failing)
      || s' == s.(copier := if c.chunks == [] then Leaving else CheckFlag(0))
    case CheckFlag(i) =>
      s' == s.(copier := if i + 1 < |c.chunks| && !s.intFlag then Fetch(i) else FinalCheck(i))
    case FinalCheck(i) =>
      if !s.intFlag then s' == s.(copier := Fetch(i))
      else if c.viaExtents && i == 0 then s' == s.(copier := Crashed, error := true)
      else s' == s.(copier := Failing)
    case Fetch(i) =>
      || s' == s.(copier := Failing)
      || s' == s.(copier := Crashed)
      || s' == s.(copier := Write(i, 0))
    case Write(i, done) => i < |c.chunks| && done <= |c.chunks[i]| && WriteStep(c, s, s', i, done)
    case Failing => s' == s.(copier := Leaving, error := true)
    case Leaving => s' == s.(copier := Finished)
    case Finished => false
    case Crashed => false
  }

  /** A running WriteFile fails, returns once everything is down, or puts down more bytes of chunk i. */
  predicate WriteStep(c: Config, s: State, s': State, i: nat, done: nat)
    requires i < |c.chunks| && done <= |c.chunks[i]|
  {
    || s' == s.(copier := Failing)
    || (done == |c.chunks[i]| && s' == s.(copier := if i + 1 < |c.chunks| then CheckFlag(i + 1) else Leaving))
    || exists n: nat :: done < n <= |c.chunks[i]| && PutDown(c, s, s', i, done, n)
  }

  predicate PutDown(c: Config, s: State, s': State, i: nat, done: nat, n: nat)
    requires i < |c.chunks| && done < n <= |c.chunks[i]|
  {
    s' == s.(copier := Write(i, n), file := s.file + c.chunks[i][done..n])
  }

  // ----- the polling thread -----

  predicate PollerStep(c: Config, s: State, s': State) {
    match s.poller
    case AskSize => s' == s.(poller := AskError(|s.file|)) || s' == s.(poller := SetFlag(ReadError))
    case AskError(size) => s' == s.(poller := if s.error then SetFlag(ReadError) else Compare(size))
    case Compare(size) => s' == s.(poller := if size >= |c.Source()| then CloseThenJoin else Progress)
    case Progress => s' == s.(poller := AskSize) || s' == s.(poller := SetFlag(UserAbort))
    case SetFlag(o) => s' == s.(poller := JoinThenClose(o), intFlag := true)
    case JoinThenClose(o) => s.copier == Finished && s' == s.(poller := Returned(o), open := false)
    case CloseThenJoin => s' == s.(poller := JoinAfterClose, open := false)
    case JoinAfterClose => s.copier == Finished && s' == s.(poller := Returned(FileOk))
    case Returned(_) => false
  }

  predicate Next(c: Config, s: State, s': State) {
    CopierStep(c, s, s') || PollerStep(c, s, s')
  }

  /** A finite execution from the initial state, under any interleaving. */
  predicate Execution(c: Config, tr: seq<State>) {
    |tr| > 0 && Init(tr[0]) && forall i :: 0 <= i < |tr| - 1 ==> Next(c, tr[i], tr[i + 1])
  }

  // ----- invariant -----

  /** What the local file holds at each point of the copying thread. */
  predicate FileMatches(c: Config, s: State) {
    match s.copier
    case NotStarted => s.file == []
    case Starting => s.file == []
    case CheckFlag(i) => i < |c.chunks| && s.file == c.Written(i)
    case FinalCheck(i) => i < |c.chunks| && s.file == c.Written(i) && (s.intFlag || i + 1 == |c.chunks|)
    case Fetch(i) => i < |c.chunks| && s.file == c.Written(i)
    case Write(i, done) => i < |c.chunks| && done <= |c.chunks[i]| && s.file == c.Written(i) + c.chunks[i][..done]
    case Failing => IsPrefix(s.file, c.Source())
    case Leaving => IsPrefix(s.file, c.Source()) && (s.error || s.file == c.Source())
    case Finished => IsPrefix(s.file, c.Source()) && (s.error || s.file == c.Source())
    case Crashed => IsPrefix(s.file, c.Source()) && |s.file| < |c.Source()|
  }

  /** The poller has only seen sizes the file has really had; past the comparison the file is whole. */
  predicate PollerKnows(c: Config, s: State) {
    match s.poller
    case AskError(size) => size <= |s.file|
    case Compare(size) => size <= |s.file|
    case CloseThenJoin => s.file == c.Source() && s.open
    case JoinAfterClose => s.file == c.Source() && !s.open
    case JoinThenClose(o) => o != FileOk && s.intFlag && s.open
    case SetFlag(o) => o != FileOk && s.open
    case Returned(o) => s.copier == Finished && !s.open && (o == FileOk ==> s.file == c.Source())
    case _ => s.open
  }

  predicate Inv(c: Config, s: State) {
    FileMatches(c, s) && PollerKnows(c, s) && (!s.open ==> s.poller == JoinAfterClose || s.poller.Returned?)
  }

  lemma {:induction false} WrittenIsPrefix(c: Config, i: nat, j: nat)
    requires i <= j <= |c.chunks|
    ensures IsPrefix(c.Written(i), c.Written(j))
  {
    if i < j {
      WrittenIsPrefix(c, i, j - 1);
    }
  }

  /** While chunk i is incomplete so is the file. */
  lemma PartOfChunk(c: Config, i: nat, n: nat)
    requires i < |c.chunks| && n <= |c.chunks[i]|
    ensures IsPrefix(c.Written(i) + c.chunks[i][..n], c.Source())
    ensures n == |c.chunks[i]| ==> c.Written(i) + c.chunks[i][..n] == c.Written(i + 1)
    ensures n < |c.chunks[i]| ==> |c.Written(i) + c.chunks[i][..n]| < |c.Source()|
  {
    WrittenIsPrefix(c, i + 1, |c.chunks|);
  }

  /** The steps of a running WriteFile: bytes are only put down while the file is incomplete. */
  lemma WriteKeepsMatch(c: Config, s: State, s': State)
    requires c.Valid() && FileMatches(c, s) && CopierStep(c, s, s') && s.copier.Write?
    ensures FileMatches(c, s') && |s.file| <= |s'.file| && (s'.file != s.file ==> |s.file| < |c.Source()|)
    ensures s'.poller == s.poller && s'.open == s.open && s'.intFlag == s.intFlag
  {
    hide Config.Written, IsPrefix;
    var i, done := s.copier.i, s.copier.done;
    PartOfChunk(c, i, done);
    if s'.copier.Write? {
      var n: nat :| done < n <= |c.chunks[i]| && PutDown(c, s, s', i, done, n);
      PartOfChunk(c, i, n);
      assert (c.Written(i) + c.chunks[i][..done]) + c.chunks[i][done..n] == c.Written(i) + c.chunks[i][..n];
    }
  }

  /** The other steps leave the file alone. */
  lemma QuietStepKeepsMatch(c: Config, s: State, s': State)
    requires c.Valid() && FileMatches(c, s) && CopierStep(c, s, s') && !s.copier.Write?
    ensures FileMatches(c, s') && s'.file == s.file
    ensures s'.poller == s.poller && s'.open == s.open && s'.intFlag == s.intFlag && s.copier != Finished
  {
    hide Config.Written, IsPrefix, WriteStep, PutDown;
    NothingWritten(c);
    FileNeverLonger(c, s);
    if s.copier.Fetch? || s.copier.FinalCheck? {
      ChunkMissing(c, s.copier.i);
    }
  }

  lemma ChunkMissing(c: Config, i: nat)
    requires c.Valid() && i < |c.chunks|
    ensures |c.Written(i)| < |c.Source()|
  {
    PartOfChunk(c, i, 0);
  }

  lemma NothingWritten(c: Config)
    ensures c.Written(0) == [] && (c.chunks == [] ==> c.Source() == [])
    ensures IsPrefix([], c.Source())
  {
  }

  /** A copier step never writes after the poller has closed the handle or seen the whole file, and
      keeps the invariant. */
  lemma CopierKeepsInv(c: Config, s: State, s': State)
    requires c.Valid() && Inv(c, s) && CopierStep(c, s, s')
    ensures Inv(c, s')
    ensures s'.file != s.file ==> s.open
  {
    if s.copier.Write? {
      WriteKeepsMatch(c, s, s');
    } else {
      QuietStepKeepsMatch(c, s, s');
    }
    hide CopierStep, FileMatches, Config.Written;
  }

  lemma PollerKeepsInv(c: Config, s: State, s': State)
    requires c.Valid() && Inv(c, s) && PollerStep(c, s, s')
    ensures Inv(c, s')
    ensures s'.file == s.file
  {
    hide Config.Written, FileMatches, IsPrefix;
    FileNeverLonger(c, s);
    PollingKeepsMatch(c, s, s');
  }

  /** What the copying thread relies on survives whatever the poller does to its own words and to the
      cancel flag, which it only raises. */
  lemma PollingKeepsMatch(c: Config, s: State, s': State)
    requires FileMatches(c, s) && s'.copier == s.copier && s'.file == s.file && s'.error == s.error
    requires s.intFlag ==> s'.intFlag
    ensures FileMatches(c, s')
  {
  }

  lemma FileNeverLonger(c: Config, s: State)
    requires FileMatches(c, s)
    ensures IsPrefix(s.file, c.Source())
  {
    if s.copier.CheckFlag? || s.copier.FinalCheck? || s.copier.Fetch? {
      WrittenIsPrefix(c, s.copier.i, |c.chunks|);
    } else if s.copier.Write? {
      PartOfChunk(c, s.copier.i, s.copier.done);
    } else {
      NothingWritten(c);
    }
  }

  lemma {:induction false} ExecutionKeepsInv(c: Config, tr: seq<State>, i: nat)
    requires c.Valid() && Execution(c, tr) && i < |tr|
    ensures Inv(c, tr[i])
  {
    if i > 0 {
      ExecutionKeepsInv(c, tr, i - 1);
      assert Next(c, tr[i - 1], tr[i - 1 + 1]);
      if CopierStep(c, tr[i - 1], tr[i]) {
        CopierKeepsInv(c, tr[i - 1], tr[i]);
      } else {
        PollerKeepsInv(c, tr[i - 1], tr[i]);
      }
    }
  }

  // ----- what every execution guarantees -----

  /** FS_FILE_OK is returned only for a complete copy; every other result leaves a prefix of the source;
      in both cases the copying thread has finished. At all times the file is a prefix of the source. */
  lemma ResultIsHonest(c: Config, tr: seq<State>, i: nat)
    requires c.Valid() && Execution(c, tr) && i < |tr|
    ensures IsPrefix(tr[i].file, c.Source())
    ensures tr[i].poller == Returned(FileOk) ==> tr[i].file == c.Source()
    ensures tr[i].poller.Returned? ==> tr[i].copier == Finished && !tr[i].open
  {
    ExecutionKeepsInv(c, tr, i);
    FileNeverLonger(c, tr[i]);
  }

  /** No write ever happens on a closed handle, although the OK path closes it before joining. */
  lemma NoWriteAfterClose(c: Config, tr: seq<State>, i: nat)
    requires c.Valid() && Execution(c, tr) && i + 1 < |tr| && tr[i + 1].file != tr[i].file
    ensures tr[i].open
  {
    ExecutionKeepsInv(c, tr, i);
    assert Next(c, tr[i], tr[i + 1]);
    if CopierStep(c, tr[i], tr[i + 1]) {
      CopierKeepsInv(c, tr[i], tr[i + 1]);
    } else {
      PollerKeepsInv(c, tr[i], tr[i + 1]);
    }
  }

  /** A crashed copying thread leaves an incomplete file, and the poller never returns. */
  lemma CrashIsNoResult(c: Config, tr: seq<State>, i: nat)
    requires c.Valid() && Execution(c, tr) && i < |tr| && tr[i].copier == Crashed
    ensures IsPrefix(tr[i].file, c.Source()) && tr[i].file != c.Source() && !tr[i].poller.Returned?
  {
    ExecutionKeepsInv(c, tr, i);
  }

  // ----- every failed result has its cause -----

  predicate SizeQueryFails(s: State, s': State) {
    s.poller == AskSize && s'.poller == SetFlag(ReadError)
  }

  predicate UserCancels(s: State, s': State) {
    s.poller == Progress && s'.poller == SetFlag(UserAbort)
  }

  /** Loading the inode, reading a block or writing a chunk goes wrong. */
  predicate DeviceFails(s: State, s': State) {
    (s.copier.Starting? || s.copier.Fetch? || s.copier.Write?) && s'.copier == Failing
  }

  predicate Happened(tr: seq<State>, i: nat, what: (State, State) -> bool)
    requires i < |tr|
  {
    exists j {:trigger tr[j]} :: 0 <= j < i && what(tr[j], tr[j + 1])
  }

  lemma HappenedMonotone(tr: seq<State>, i: nat, what: (State, State) -> bool)
    requires i + 1 < |tr|
    ensures Happened(tr, i + 1, what) <==> Happened(tr, i, what) || what(tr[i], tr[i + 1])
  {
  }

  /** The poller is on its way to result o. */
  predicate HeadsFor(p: Poller, o: Outcome) {
    p == SetFlag(o) || p == JoinThenClose(o) || p == Returned(o)
  }

  predicate Causes(s: State, cancelled: bool, queryFailed: bool, deviceFailed: bool) {
    && (HeadsFor(s.poller, UserAbort) ==> cancelled)
    && (HeadsFor(s.poller, ReadError) ==> queryFailed || deviceFailed)
    && (s.intFlag ==> s.poller.JoinThenClose? || s.poller.Returned?)
    && (s.error || s.copier == Failing ==> s.intFlag || deviceFailed)
  }

  lemma StepHasCause(c: Config, s: State, s': State, cancelled: bool, queryFailed: bool, deviceFailed: bool)
    requires Next(c, s, s') && Causes(s, cancelled, queryFailed, deviceFailed)
    ensures Causes(s', cancelled || UserCancels(s, s'), queryFailed || SizeQueryFails(s, s'),
            deviceFailed || DeviceFails(s, s'))
  {
    hide Config.Written, Causes, CopierStep, PollerStep;
    if CopierStep(c, s, s') {
      CopierHasCause(c, s, s', cancelled, queryFailed, deviceFailed);
    } else {
      PollerHasCause(c, s, s', cancelled, queryFailed, deviceFailed);
    }
  }

  lemma CopierHasCause(c: Config, s: State, s': State, cancelled: bool, queryFailed: bool, deviceFailed: bool)
    requires CopierStep(c, s, s') && Causes(s, cancelled, queryFailed, deviceFailed)
    ensures Causes(s', cancelled || UserCancels(s, s'), queryFailed || SizeQueryFails(s, s'),
            deviceFailed || DeviceFails(s, s'))
  {
    hide Config.Written;
  }

  lemma PollerHasCause(c: Config, s: State, s': State, cancelled: bool, queryFailed: bool, deviceFailed: bool)
    requires PollerStep(c, s, s') && Causes(s, cancelled, queryFailed, deviceFailed)
    ensures Causes(s', cancelled || UserCancels(s, s'), queryFailed || SizeQueryFails(s, s'),
            deviceFailed || DeviceFails(s, s'))
  {
    hide Config.Written;
  }

  /** The copying thread reports an error, and the poller gives up, only because the user cancelled, the
      size query failed or the device did. */
  lemma {:induction false} ExecutionHasCauses(c: Config, tr: seq<State>, i: nat)
    requires Execution(c, tr) && i < |tr|
    ensures Causes(tr[i], Happened(tr, i, UserCancels), Happened(tr, i, SizeQueryFails), Happened(tr, i, DeviceFails))
  {
    hide CopierStep, PollerStep, Happened, UserCancels, SizeQueryFails, DeviceFails;
    if i > 0 {
      ExecutionHasCauses(c, tr, i - 1);
      assert Next(c, tr[i - 1], tr[i - 1 + 1]);
      StepHasCause(c, tr[i - 1], tr[i], Happened(tr, i - 1, UserCancels), Happened(tr, i - 1, SizeQueryFails),
                   Happened(tr, i - 1, DeviceFails));
      HappenedMonotone(tr, i - 1, UserCancels);
      HappenedMonotone(tr, i - 1, SizeQueryFails);
      HappenedMonotone(tr, i - 1, DeviceFails);
    }
  }

  /** An abort is reported only if the user cancelled and a read error only if something failed; so a
      copy nobody disturbs can only end with FS_FILE_OK. */
  lemma ResultHasCause(c: Config, tr: seq<State>, i: nat)
    requires Execution(c, tr) && i < |tr|
    ensures tr[i].poller == Returned(UserAbort) ==> Happened(tr, i, UserCancels)
    ensures tr[i].poller == Returned(ReadError) ==> Happened(tr, i, SizeQueryFails) || Happened(tr, i, DeviceFails)
  {
    ExecutionHasCauses(c, tr, i);
  }

  // ----- and every cause has its result -----

  /** The polling thread reads the error word and finds an error in it. */
  predicate ErrorSeen(s: State, s': State) {
    s.poller.AskError? && s.error && s'.poller != s.poller
  }

  lemma CopierLeavesPoller(c: Config, s: State, s': State)
    requires CopierStep(c, s, s')
    ensures s'.poller == s.poller && s'.intFlag == s.intFlag
  {
    hide Config.Source;
  }

  /** What one step makes of the two ways to fail. */
  lemma StepDecides(c: Config, s: State, s': State)
    requires Next(c, s, s')
    ensures HeadsFor(s'.poller, UserAbort) <==> HeadsFor(s.poller, UserAbort) || UserCancels(s, s')
    ensures HeadsFor(s'.poller, ReadError) <==>
            HeadsFor(s.poller, ReadError) || SizeQueryFails(s, s') || ErrorSeen(s, s')
  {
    hide CopierStep, Config.Source;
    if CopierStep(c, s, s') {
      CopierLeavesPoller(c, s, s');
    }
  }

  lemma {:induction false} DecidedBy(c: Config, tr: seq<State>, i: nat)
    requires Execution(c, tr) && i < |tr|
    ensures HeadsFor(tr[i].poller, UserAbort) <==> Happened(tr, i, UserCancels)
    ensures HeadsFor(tr[i].poller, ReadError) <==>
            Happened(tr, i, SizeQueryFails) || Happened(tr, i, ErrorSeen)
  {
    hide Next, Happened, HeadsFor, UserCancels, SizeQueryFails, ErrorSeen;
    if i > 0 {
      DecidedBy(c, tr, i - 1);
      assert Next(c, tr[i - 1], tr[i - 1 + 1]);
      StepDecides(c, tr[i - 1], tr[i]);
      HappenedMonotone(tr, i - 1, UserCancels);
      HappenedMonotone(tr, i - 1, SizeQueryFails);
      HappenedMonotone(tr, i - 1, ErrorSeen);
    } else {
      NothingDecided(tr);
    }
  }

  lemma NothingDecided(tr: seq<State>)
    requires |tr| > 0 && Init(tr[0])
    ensures !HeadsFor(tr[0].poller, UserAbort) && !HeadsFor(tr[0].poller, ReadError)
    ensures forall what :: !Happened(tr, 0, what)
  {
  }

  /** The result of every execution, both ways: an abort exactly if the user cancelled, a read error exactly if a
      size query failed or an error was seen, and FS_FILE_OK exactly if none of the three happened. At most one of
      them does, as the polling thread looks for nothing more after the first. */
  lemma ResultExact(c: Config, tr: seq<State>, i: nat)
    requires c.Valid() && Execution(c, tr) && i < |tr| && tr[i].poller.Returned?
    ensures tr[i].poller == Returned(UserAbort) <==> Happened(tr, i, UserCancels)
    ensures tr[i].poller == Returned(ReadError) <==>
            Happened(tr, i, SizeQueryFails) || Happened(tr, i, ErrorSeen)
    ensures tr[i].poller == Returned(FileOk) <==>
            !Happened(tr, i, UserCancels) && !Happened(tr, i, SizeQueryFails) && !Happened(tr, i, ErrorSeen)
  {
    hide Happened, Execution;
    DecidedBy(c, tr, i);
    var o := tr[i].poller.o;
    assert o == FileOk || o == ReadError || o == UserAbort;
  }

  function Last(tr: seq<State>): State
    requires |tr| > 0
  {
    tr[|tr| - 1]
  }

  /** However the execution goes on, it can only return this result, with the copying thread finished and the
      handle closed; unless that is FS_FILE_OK the cancel flag is raised then. */
  ghost predicate EndsOnlyWith(c: Config, tr: seq<State>, o: Outcome) {
    forall tr' :: Execution(c, tr') && tr <= tr' && Last(tr').poller.Returned? ==>
      var s := Last(tr');
      s.poller == Returned(o) && s.copier == Finished && !s.open && (o != FileOk ==> s.intFlag)
  }

  /** The polling thread has the choices that the user and the file system leave it: after a progress report
      the user may cancel or not, and a size query may fail or yield the size of the file. */
  lemma PollerChoices(c: Config, tr: seq<State>)
    requires Execution(c, tr)
    ensures var s := Last(tr);
            && (s.poller == Progress ==>
                  Execution(c, tr + [s.(poller := SetFlag(UserAbort))]) && Execution(c, tr + [s.(poller := AskSize)]))
            && (s.poller == AskSize ==>
                  && Execution(c, tr + [s.(poller := SetFlag(ReadError))])
                  && Execution(c, tr + [s.(poller := AskError(|s.file|))]))
  {
    hide CopierStep, Config.Source;
    var s := Last(tr);
    forall s' | Next(c, s, s')
      ensures Execution(c, tr + [s'])
    {
      OneMoreStep(c, tr, s');
    }
  }

  lemma OneMoreStep(c: Config, tr: seq<State>, s': State)
    requires Execution(c, tr) && Next(c, Last(tr), s')
    ensures Execution(c, tr + [s'])
  {
    hide Next;
  }

  /** Once the polling thread heads for a result it stays with it. */
  lemma {:induction false} StaysDecided(c: Config, tr: seq<State>, i: nat, j: nat, o: Outcome)
    requires Execution(c, tr) && i <= j < |tr| && HeadsFor(tr[i].poller, o)
    ensures HeadsFor(tr[j].poller, o)
    decreases j
  {
    hide CopierStep, Config.Source;
    if i < j {
      StaysDecided(c, tr, i, j - 1, o);
      assert Next(c, tr[j - 1], tr[j - 1 + 1]);
      if CopierStep(c, tr[j - 1], tr[j]) {
        CopierLeavesPoller(c, tr[j - 1], tr[j]);
      }
    }
  }

  lemma DecidedEnds(c: Config, tr: seq<State>, o: Outcome)
    requires c.Valid() && Execution(c, tr) && HeadsFor(Last(tr).poller, o) && o != FileOk
    ensures EndsOnlyWith(c, tr, o)
  {
    hide CopierStep, PollerStep, Config.Source, FileMatches;
    forall tr' | Execution(c, tr') && tr <= tr' && Last(tr').poller.Returned?
      ensures var s := Last(tr');
              s.poller == Returned(o) && s.copier == Finished && !s.open && s.intFlag
    {
      var last := |tr'| - 1;
      assert tr'[|tr| - 1] == Last(tr);
      StaysDecided(c, tr', |tr| - 1, last, o);
      ExecutionKeepsInv(c, tr', last);
      ExecutionKeepsFlag(c, tr', last);
    }
  }

  /** A failing result is only returned with the flag raised. */
  lemma {:induction false} ExecutionKeepsFlag(c: Config, tr: seq<State>, i: nat)
    requires Execution(c, tr) && i < |tr|
    ensures forall o :: o != FileOk && tr[i].poller in {JoinThenClose(o), Returned(o)} ==> tr[i].intFlag
  {
    hide CopierStep, Config.Source;
    if i > 0 {
      ExecutionKeepsFlag(c, tr, i - 1);
      assert Next(c, tr[i - 1], tr[i - 1 + 1]);
      if CopierStep(c, tr[i - 1], tr[i]) {
        CopierLeavesPoller(c, tr[i - 1], tr[i]);
      }
    }
  }

  /** A cancel is honoured: wherever the user can cancel, an execution in which he does returns, if it does,
      FS_FILE_USERABORT, after raising the flag and joining the copying thread. */
  lemma CancelIsHonoured(c: Config, tr: seq<State>) returns (s: State)
    requires c.Valid() && Execution(c, tr) && Last(tr).poller == Progress
    ensures Execution(c, tr + [s]) && UserCancels(Last(tr), s) && EndsOnlyWith(c, tr + [s], UserAbort)
  {
    hide EndsOnlyWith;
    PollerChoices(c, tr);
    s := Last(tr).(poller := SetFlag(UserAbort));
    DecidedEnds(c, tr + [s], UserAbort);
  }

  /** So is a failed size query, with FS_FILE_READERROR. */
  lemma FailedQueryIsReported(c: Config, tr: seq<State>) returns (s: State)
    requires c.Valid() && Execution(c, tr) && Last(tr).poller == AskSize
    ensures Execution(c, tr + [s]) && SizeQueryFails(Last(tr), s) && EndsOnlyWith(c, tr + [s], ReadError)
  {
    hide EndsOnlyWith;
    PollerChoices(c, tr);
    s := Last(tr).(poller := SetFlag(ReadError));
    DecidedEnds(c, tr + [s], ReadError);
  }

  /** And an error that is seen: there is no other way to go on. */
  lemma SeenErrorIsReported(c: Config, tr: seq<State>, s: State)
    requires c.Valid() && Execution(c, tr + [s]) && |tr| > 0 && ErrorSeen(Last(tr), s)
    ensures EndsOnlyWith(c, tr + [s], ReadError)
  {
    hide EndsOnlyWith, CopierStep, Config.Source;
    var tr' := tr + [s];
    assert tr'[|tr| - 1] == Last(tr) && tr'[|tr|] == s;
    assert Next(c, tr'[|tr| - 1], tr'[|tr| - 1 + 1]);
    if CopierStep(c, Last(tr), s) {
      CopierLeavesPoller(c, Last(tr), s);
    }
    DecidedEnds(c, tr', ReadError);
  }

  /** A complete file whose size has been seen is answered with FS_FILE_OK. */
  lemma CompleteCopyIsOk(c: Config, tr: seq<State>)
    requires c.Valid() && Execution(c, tr) && Last(tr).poller in {CloseThenJoin, JoinAfterClose}
    ensures EndsOnlyWith(c, tr, FileOk)
  {
    hide CopierStep, Config.Source, FileMatches;
    forall tr' | Execution(c, tr') && tr <= tr' && Last(tr').poller.Returned?
      ensures Last(tr').poller == Returned(FileOk) && Last(tr').copier == Finished && !Last(tr').open
    {
      var last := |tr'| - 1;
      assert tr'[|tr| - 1] == Last(tr);
      StaysOk(c, tr', |tr| - 1, last);
      ExecutionKeepsInv(c, tr', last);
    }
  }

  lemma {:induction false} StaysOk(c: Config, tr: seq<State>, i: nat, j: nat)
    requires Execution(c, tr) && i <= j < |tr| && tr[i].poller in {CloseThenJoin, JoinAfterClose}
    ensures tr[j].poller in {CloseThenJoin, JoinAfterClose, Returned(FileOk)}
    decreases j
  {
    hide CopierStep, Config.Source;
    if i < j {
      StaysOk(c, tr, i, j - 1);
      assert Next(c, tr[j - 1], tr[j - 1 + 1]);
      if CopierStep(c, tr[j - 1], tr[j]) {
        CopierLeavesPoller(c, tr[j - 1], tr[j]);
      }
    }
  }

  /** How much the local file can grow to once the cancel flag is raised: the block being fetched or written is
      still completed, and no other is begun. */
  function Limit(c: Config, s: State): nat {
    match s.copier
    case NotStarted => 0
    case Starting => 0
    case Fetch(i) => if i < |c.chunks| then |c.Written(i + 1)| else 0
    case Write(i, _) => if i < |c.chunks| then |c.Written(i + 1)| else 0
    case _ => |s.file|
  }

  lemma FileLimited(c: Config, s: State)
    requires FileMatches(c, s)
    ensures |s.file| <= Limit(c, s)
    ensures s.copier.Fetch? || s.copier.Write? ==>
              s.copier.i < |c.chunks| && Limit(c, s) == |c.Written(s.copier.i)| + |c.chunks[s.copier.i]|
  {
    hide Config.Source, Config.Written, IsPrefix;
    if s.copier.Fetch? || s.copier.Write? {
      PartOfChunk(c, s.copier.i, |c.chunks[s.copier.i]|);
    }
  }

  lemma QuietLimited(c: Config, s: State, s': State)
    requires FileMatches(c, s) && !s.copier.Write? && CopierStep(c, s, s') && s.intFlag
    ensures Limit(c, s') <= Limit(c, s)
  {
    hide Config.Written, IsPrefix;
    FileLimited(c, s);
  }

  lemma WriteLimited(c: Config, s: State, s': State)
    requires FileMatches(c, s) && s.copier.Write? && CopierStep(c, s, s')
    ensures Limit(c, s') <= Limit(c, s)
  {
    hide Config.Written;
    FileLimited(c, s);
  }

  lemma PollerLimited(c: Config, s: State, s': State)
    requires PollerStep(c, s, s')
    ensures Limit(c, s') == Limit(c, s) && (s.intFlag ==> s'.intFlag)
  {
    hide Config.Written;
  }

  lemma FlagLimitsStep(c: Config, s: State, s': State)
    requires FileMatches(c, s) && Next(c, s, s') && s.intFlag
    ensures Limit(c, s') <= Limit(c, s) && s'.intFlag
  {
    hide CopierStep, PollerStep, FileMatches, Limit;
    if PollerStep(c, s, s') {
      PollerLimited(c, s, s');
    } else {
      CopierLeavesPoller(c, s, s');
      if s.copier.Write? {
        WriteLimited(c, s, s');
      } else {
        QuietLimited(c, s, s');
      }
    }
  }

  /** A cancelled copy stops: from the moment the flag is raised the file only grows by the rest of the block in
      progress. */
  lemma {:induction false} FlagStopsCopy(c: Config, tr: seq<State>, i: nat, j: nat)
    requires c.Valid() && Execution(c, tr) && i <= j < |tr| && tr[i].intFlag
    ensures tr[j].intFlag && |tr[j].file| <= Limit(c, tr[j]) <= Limit(c, tr[i])
    decreases j
  {
    hide Next, Limit, FileMatches, PollerKnows;
    ExecutionKeepsInv(c, tr, j);
    if i < j {
      FlagStopsCopy(c, tr, i, j - 1);
      ExecutionKeepsInv(c, tr, j - 1);
      assert Next(c, tr[j - 1], tr[j - 1 + 1]);
      FlagLimitsStep(c, tr[j - 1], tr[j]);
    }
    FileLimited(c, tr[j]);
  }

  // ----- what ends the copying thread before its time -----

  /** A pointer block or an extent node cannot be read, and the null buffer is followed. */
  predicate LookupDies(s: State, s': State) {
    s.copier.Fetch? && s'.copier == Crashed
  }

  /** The copying thread crashes only if the lookup of a block dies, or in its destructor if it serves an extent
      file and was cancelled before its first block, with nothing written. */
  lemma {:induction false} CrashHasCause(c: Config, tr: seq<State>, i: nat)
    requires c.Valid() && Execution(c, tr) && i < |tr| && tr[i].copier == Crashed
    ensures Happened(tr, i, LookupDies) || (c.viaExtents && tr[i].intFlag && tr[i].file == [])
  {
    hide Config.Written, Happened, LookupDies, Next, Inv;
    assert i > 0;
    assert Next(c, tr[i - 1], tr[i - 1 + 1]);
    HappenedMonotone(tr, i - 1, LookupDies);
    if tr[i - 1].copier == Crashed {
      CrashHasCause(c, tr, i - 1);
      StaysCrashed(c, tr[i - 1], tr[i]);
    } else {
      ExecutionKeepsInv(c, tr, i - 1);
      CrashingStep(c, tr[i - 1], tr[i]);
    }
  }

  lemma StaysCrashed(c: Config, s: State, s': State)
    requires Next(c, s, s') && s.copier == Crashed
    ensures s'.file == s.file && (s.intFlag ==> s'.intFlag)
  {
  }

  lemma CrashingStep(c: Config, s: State, s': State)
    requires c.Valid() && Inv(c, s) && Next(c, s, s') && s'.copier == Crashed && s.copier != Crashed
    ensures LookupDies(s, s') || (c.viaExtents && s'.intFlag && s'.file == [])
  {
  }

  // ----- both threads come to an end -----

  /** Program points the copying thread can still pass. */
  function Remaining(c: Config, p: Copier): nat {
    var n := |c.chunks|;
    match p
    case NotStarted => 4 * n + 7
    case Starting => 4 * n + 6
    case CheckFlag(i) => if i <= n then 4 * (n - i) + 5 else 5
    case FinalCheck(i) => if i <= n then 4 * (n - i) + 4 else 4
    case Fetch(i) => if i <= n then 4 * (n - i) + 3 else 3
    case Write(i, _) => if i <= n then 4 * (n - i) + 2 else 2
    case Failing => 2
    case Leaving => 1
    case Finished => 0
    case Crashed => 0
  }

  /** Copier steps left: program points, and one step at least for every byte still to come. */
  function StepsLeft(c: Config, s: State): nat {
    Remaining(c, s.copier) + if |s.file| <= |c.Source()| then |c.Source()| - |s.file| else 0
  }

  lemma WriteMovesDown(c: Config, s: State, s': State)
    requires FileMatches(c, s) && FileMatches(c, s') && CopierStep(c, s, s') && s.copier.Write?
    requires |s.file| <= |c.Source()| && |s'.file| <= |c.Source()|
    ensures s'.copier != s.copier && StepsLeft(c, s') < StepsLeft(c, s)
  {
    hide Config.Written, IsPrefix;
  }

  lemma QuietMovesDown(c: Config, s: State, s': State)
    requires FileMatches(c, s) && CopierStep(c, s, s') && !s.copier.Write?
    ensures s'.copier != s.copier && s'.file == s.file && Remaining(c, s'.copier) < Remaining(c, s.copier)
  {
    hide Config.Written, IsPrefix;
  }

  /** Every copier step moves on and leaves fewer steps to take. */
  lemma CopierMovesDown(c: Config, s: State, s': State)
    requires c.Valid() && Inv(c, s) && CopierStep(c, s, s')
    ensures s'.copier != s.copier && StepsLeft(c, s') < StepsLeft(c, s)
  {
    hide Config.Written, FileMatches, CopierStep, Remaining;
    CopierKeepsInv(c, s, s');
    FileNeverLonger(c, s);
    FileNeverLonger(c, s');
    if s.copier.Write? {
      WriteMovesDown(c, s, s');
    } else {
      QuietMovesDown(c, s, s');
    }
  }

  lemma PollerLeavesCopier(c: Config, s: State, s': State)
    requires PollerStep(c, s, s')
    ensures s'.copier == s.copier && StepsLeft(c, s') == StepsLeft(c, s)
  {
  }

  /** How often the copying thread has moved in the first i steps of an execution. */
  function CopierSteps(tr: seq<State>, i: nat): nat
    requires i < |tr|
  {
    if i == 0 then 0 else CopierSteps(tr, i - 1) + if tr[i].copier != tr[i - 1].copier then 1 else 0
  }

  lemma {:induction false} StepsAreBounded(c: Config, tr: seq<State>, i: nat)
    requires c.Valid() && Execution(c, tr) && i < |tr|
    ensures CopierSteps(tr, i) + StepsLeft(c, tr[i]) <= 4 * |c.chunks| + 7 + |c.Source()|
  {
    hide Config.Written, FileMatches, CopierStep, PollerStep, Inv;
    if i > 0 {
      hide StepsLeft;
      StepsAreBounded(c, tr, i - 1);
      ExecutionKeepsInv(c, tr, i - 1);
      assert Next(c, tr[i - 1], tr[i - 1 + 1]);
      if CopierStep(c, tr[i - 1], tr[i]) {
        CopierMovesDown(c, tr[i - 1], tr[i]);
      } else {
        PollerLeavesCopier(c, tr[i - 1], tr[i]);
      }
    }
  }

  /** In no execution does the copying thread take more steps than this, so a poller that waits for it
      waits for finitely many of them. */
  lemma JoinTerminates(c: Config, tr: seq<State>, i: nat)
    requires c.Valid() && Execution(c, tr) && i < |tr|
    ensures CopierSteps(tr, i) <= 4 * |c.chunks| + 7 + |c.Source()|
  {
    hide Config.Written, StepsLeft;
    StepsAreBounded(c, tr, i);
  }

  /** In every state of an execution, until it has finished or crashed, the copying thread can take a
      step. */
  lemma CopierNeverStuck(c: Config, tr: seq<State>, i: nat) returns (t: State)
    requires c.Valid() && Execution(c, tr) && i < |tr| && tr[i].copier != Finished && tr[i].copier != Crashed
    ensures CopierStep(c, tr[i], t)
  {
    hide Config.Written;
    var s := tr[i];
    ExecutionKeepsInv(c, tr, i);
    match s.copier
    case NotStarted => t := s.(copier := Starting, error := false);
    case Starting => t := s.(copier := Failing);
    case CheckFlag(i) => t := s.(copier := if i + 1 < |c.chunks| && !s.intFlag then Fetch(i) else FinalCheck(i));
    case FinalCheck(i) =>
      t := if !s.intFlag then s.(copier := Fetch(i))
           else if c.viaExtents && i == 0 then s.(copier := Crashed, error := true)
           else s.(copier := Failing);
    case Fetch(i) => t := s.(copier := Failing);
    case Write(_, _) => t := s.(copier := Failing);
    case Failing => t := s.(copier := Leaving, error := true);
    case Leaving => t := s.(copier := Finished);
  }

  /** Poller steps left once the copying thread has finished; a size seen before that may be out of date
      and cost one more round. */
  function PollerLeft(c: Config, s: State): nat {
    match s.poller
    case AskSize => 5
    case AskError(size) => if s.error || size >= |c.Source()| then 4 else 8
    case Compare(size) => if size >= |c.Source()| then 3 else 7
    case Progress => 6
    case SetFlag(_) => 2
    case JoinThenClose(_) => 1
    case CloseThenJoin => 2
    case JoinAfterClose => 1
    case Returned(_) => 0
  }

  lemma PollerMovesDown(c: Config, s: State, s': State)
    requires Inv(c, s) && s.copier == Finished && Next(c, s, s')
    ensures PollerLeft(c, s') < PollerLeft(c, s) && s'.copier == Finished
  {
    hide Config.Written;
  }

  /** Once the copying thread has finished an execution goes on for at most eight steps: the poller sees
      either the error word or the whole file. */
  lemma {:induction false} PollerWindsUp(c: Config, tr: seq<State>, i: nat, j: nat)
    requires c.Valid() && Execution(c, tr) && i <= j < |tr| && tr[i].copier == Finished
    ensures tr[j].copier == Finished && j - i + PollerLeft(c, tr[j]) <= 8
    decreases j
  {
    hide Config.Written, Inv, Next;
    if i < j {
      PollerWindsUp(c, tr, i, j - 1);
      ExecutionKeepsInv(c, tr, j - 1);
      assert Next(c, tr[j - 1], tr[j - 1 + 1]);
      PollerMovesDown(c, tr[j - 1], tr[j]);
    }
  }

  lemma PollerNeverStuck(c: Config, s: State) returns (t: State)
    requires s.copier == Finished && !s.poller.Returned?
    ensures PollerStep(c, s, t)
  {
    match s.poller
    case AskSize => t := s.(poller := AskError(|s.file|));
    case AskError(size) => t := s.(poller := if s.error then SetFlag(ReadError) else Compare(size));
    case Compare(size) => t := s.(poller := if size >= |c.Source()| then CloseThenJoin else Progress);
    case Progress => t := s.(poller := AskSize);
    case SetFlag(o) => t := s.(poller := JoinThenClose(o), intFlag := true);
    case JoinThenClose(o) => t := s.(poller := Returned(o), open := false);
    case CloseThenJoin => t := s.(poller := JoinAfterClose, open := false);
    case JoinAfterClose => t := s.(poller := Returned(FileOk));
  }
}
