/** The read-write lock of src/filesys/rw-lock.c as a step system. A step is one stay of a thread
    inside the monitor: from taking monitor_lock to releasing it or to going to sleep in cond_wait.
    Condition variables are Mesa style: a signalled thread is `woken` until it gets to run. */
module RwLock {

  type Tid = nat

  datatype State = State(
    numReaders: int, numWriters: int, pendingReaders: int, pendingWriter: bool, readerNext: bool,
    canRead: seq<Tid>, canWrite: seq<Tid>,        // asleep on the two condition variables
    wokenRead: set<Tid>, wokenWrite: set<Tid>,    // signalled, not yet run
    readers: set<Tid>, writers: set<Tid>)         // between acquire and release
  {
    ghost predicate Idle(t: Tid) {
      t !in canRead && t !in canWrite && t !in wokenRead && t !in wokenWrite && t !in readers && t !in writers
    }
  }

  function Of(q: seq<Tid>): set<Tid> {
    set t | t in q
  }

  /** rw_lock_init. */
  function Init(): State {
    State(0, 0, 0, false, false, [], [], {}, {}, {}, {})
  }

  // cond_signal and cond_broadcast on the two condition variables.
  function SignalWriter(s: State): State {
    if s.canWrite == [] then s else s.(canWrite := s.canWrite[1..], wokenWrite := s.wokenWrite + {s.canWrite[0]})
  }

  function BroadcastReaders(s: State): State {
    s.(canRead := [], wokenRead := s.wokenRead + Of(s.canRead))
  }

  // Parts of steps: a woken thread starts to run, a holder stops holding.
  function RunReader(s: State, t: Tid): State {
    s.(pendingReaders := s.pendingReaders - 1, wokenRead := s.wokenRead - {t})
  }

  function RunWriter(s: State, t: Tid): State {
    s.(pendingWriter := false, wokenWrite := s.wokenWrite - {t})
  }

  function DropReader(s: State, t: Tid): State {
    s.(numReaders := s.numReaders - 1, readers := s.readers - {t}, readerNext := false)
  }

  function DropWriter(s: State, t: Tid): State {
    s.(numWriters := s.numWriters - 1, writers := s.writers - {t})
  }

  function HandOver(s: State, t: Tid): State {
    s.(numWriters := s.numWriters - 1, writers := s.writers - {t}, readerNext := true)
  }

  // The test of the loop in read_lock_acquire, and what follows it.
  function TryRead(s: State, t: Tid): State {
    if (s.numWriters > 0 || s.pendingWriter) && !s.readerNext then
      s.(pendingReaders := s.pendingReaders + 1, canRead := s.canRead + [t])
    else
      s.(numReaders := s.numReaders + 1, readers := s.readers + {t})
  }

  function ResumeRead(s: State, t: Tid): State {
    TryRead(RunReader(s, t), t)
  }

  function ReadRelease(s: State, t: Tid): State {
    SignalWriter(DropReader(s, t))
  }

  // The test of the loop in write_lock_acquire, and what follows it.
  function TryWrite(s: State, t: Tid): State {
    if s.numReaders > 0 || s.numWriters > 0 || s.readerNext then
      s.(pendingWriter := true, canWrite := s.canWrite + [t])
    else
      s.(numWriters := s.numWriters + 1, writers := s.writers + {t})
  }

  function ResumeWrite(s: State, t: Tid): State {
    TryWrite(RunWriter(s, t), t)
  }

  function WriteRelease(s: State, t: Tid): State {
    if s.pendingReaders == 0 then SignalWriter(DropWriter(s, t)) else BroadcastReaders(HandOver(s, t))
  }

  datatype Action = AcquireRead | WakeRead | LeaveRead | AcquireWrite | WakeWrite | LeaveWrite

  // Thread t, and no other, may take the step.
  ghost predicate Enabled(s: State, a: Action, t: Tid) {
    match a
    case AcquireRead => s.Idle(t)
    case WakeRead => t in s.wokenRead
    case LeaveRead => t in s.readers
    case AcquireWrite => s.Idle(t)
    case WakeWrite => t in s.wokenWrite
    case LeaveWrite => t in s.writers
  }

  function Step(s: State, a: Action, t: Tid): State {
    match a
    case AcquireRead => TryRead(s, t)
    case WakeRead => ResumeRead(s, t)
    case LeaveRead => ReadRelease(s, t)
    case AcquireWrite => TryWrite(s, t)
    case WakeWrite => ResumeWrite(s, t)
    case LeaveWrite => WriteRelease(s, t)
  }

  // The state after a schedule, and whether every step of it could be taken.
  function After(run: seq<(Action, Tid)>): State {
    if run == [] then Init() else Step(After(run[..|run| - 1]), run[|run| - 1].0, run[|run| - 1].1)
  }

  ghost predicate Possible(run: seq<(Action, Tid)>) {
    run == [] || (Possible(run[..|run| - 1]) && Enabled(After(run[..|run| - 1]), run[|run| - 1].0, run[|run| - 1].1))
  }

  // ---------------------------------------------------------------------------------------
  // The invariant.

  // Thread t is in one place at most.
  ghost predicate Once(s: State, t: Tid) {
    && (t in s.canRead ==>
          t !in s.canWrite && t !in s.wokenRead && t !in s.wokenWrite && t !in s.readers && t !in s.writers)
    && (t in s.canWrite ==> t !in s.wokenRead && t !in s.wokenWrite && t !in s.readers && t !in s.writers)
    && (t in s.wokenRead ==> t !in s.wokenWrite && t !in s.readers && t !in s.writers)
    && (t in s.wokenWrite ==> t !in s.readers && t !in s.writers)
    && (t in s.readers ==> t !in s.writers)
  }

  ghost predicate Separate(s: State) {
    && |Of(s.canRead)| == |s.canRead| && |Of(s.canWrite)| == |s.canWrite|
    && forall t {:trigger Once(s, t)} :: Once(s, t)
  }

  // The counters count.
  ghost predicate Counted(s: State) {
    s.numReaders == |s.readers| && s.numWriters == |s.writers| && s.pendingReaders == |s.canRead| + |s.wokenRead|
  }

  ghost predicate Exclusive(s: State) {
    s.numWriters <= 1 && (s.numWriters > 0 ==> s.numReaders == 0) && (s.readerNext ==> s.numWriters == 0)
  }

  // Who will act when somebody sleeps.
  ghost predicate Attended(s: State) {
    && (s.pendingWriter ==> s.canWrite != [] || s.wokenWrite != {})
    && (s.readerNext ==> s.readers != {} || s.wokenRead != {})
    && (s.canRead != [] ==> s.writers != {} || s.canWrite != [] || s.wokenWrite != {})
    && (s.canWrite != [] ==> s.readers != {} || s.writers != {} || s.wokenWrite != {} || s.readerNext)
  }

  ghost predicate Inv(s: State) {
    Separate(s) && Counted(s) && Exclusive(s) && Attended(s)
  }

  lemma {:induction false} OfAtMost(q: seq<Tid>)
    ensures |Of(q)| <= |q|
  {
    if q != [] {
      OfAtMost(q[1..]);
      assert q == [q[0]] + q[1..];
      assert Of(q) == Of(q[1..]) + {q[0]};
    }
  }

  lemma OfPush(q: seq<Tid>, t: Tid)
    ensures Of(q + [t]) == Of(q) + {t}
  {
  }

  lemma OfCons(q: seq<Tid>)
    requires q != []
    ensures Of(q) == Of(q[1..]) + {q[0]}
    ensures q[0] in Of(q[1..]) ==> Of(q) == Of(q[1..])
  {
    assert q == [q[0]] + q[1..];
  }

  lemma OfPop(q: seq<Tid>)
    requires q != [] && |Of(q)| == |q|
    ensures q[0] in q && |Of(q[1..])| == |q[1..]|
    ensures forall t :: t in q[1..] <==> t in q && t != q[0]
  {
    OfAtMost(q[1..]);
    OfCons(q);
    forall t ensures t in q[1..] <==> t in q && t != q[0] {
      assert t in q[1..] <==> t in Of(q[1..]);
      assert t in q <==> t in Of(q);
    }
  }

  lemma SignalSeparate(s: State)
    requires Separate(s)
    ensures Separate(SignalWriter(s))
  {
    if s.canWrite != [] {
      OfPop(s.canWrite);
      forall t ensures Once(SignalWriter(s), t) { assert Once(s, t); }
    }
  }

  lemma BroadcastSeparate(s: State)
    requires Separate(s)
    ensures Separate(BroadcastReaders(s))
    ensures |BroadcastReaders(s).wokenRead| == |s.canRead| + |s.wokenRead|
  {
    forall t ensures Once(BroadcastReaders(s), t) { assert Once(s, t); }
    forall t | t in Of(s.canRead) ensures t !in s.wokenRead { assert Once(s, t); }
    assert Of(s.canRead) !! s.wokenRead;
  }

  lemma TryReadSeparate(s: State, t: Tid)
    requires Separate(s) && Counted(s) && s.Idle(t)
    ensures Separate(TryRead(s, t)) && Counted(TryRead(s, t))
  {
    OfPush(s.canRead, t);
    forall u ensures Once(TryRead(s, t), u) { assert Once(s, u); }
  }

  lemma TryWriteSeparate(s: State, t: Tid)
    requires Separate(s) && Counted(s) && s.Idle(t)
    ensures Separate(TryWrite(s, t)) && Counted(TryWrite(s, t))
  {
    OfPush(s.canWrite, t);
    forall u ensures Once(TryWrite(s, t), u) { TryWriteOnce(s, t, u); }
  }

  lemma TryWriteOnce(s: State, t: Tid, u: Tid)
    requires Separate(s) && Counted(s) && s.Idle(t)
    ensures Once(TryWrite(s, t), u)
  {
    OfPush(s.canWrite, t);
    assert Once(s, u);
  }

  lemma PartSeparate(s: State, t: Tid)
    requires Separate(s) && Counted(s)
    ensures t in s.wokenRead ==> Separate(RunReader(s, t)) && Counted(RunReader(s, t)) && RunReader(s, t).Idle(t)
    ensures t in s.wokenWrite ==> Separate(RunWriter(s, t)) && Counted(RunWriter(s, t)) && RunWriter(s, t).Idle(t)
    ensures t in s.readers ==> Separate(DropReader(s, t)) && Counted(DropReader(s, t))
    ensures t in s.writers ==> Separate(DropWriter(s, t)) && Counted(DropWriter(s, t))
    ensures t in s.writers ==> Separate(HandOver(s, t)) && Counted(HandOver(s, t))
  {
    assert Once(s, t);
    PartIdle(s, t);
    hide Once;
    forall u
      ensures Once(RunReader(s, t), u) && Once(RunWriter(s, t), u)
           && Once(DropReader(s, t), u) && Once(DropWriter(s, t), u) && Once(HandOver(s, t), u)
    {
      assert Once(s, u);
      PartOnce(s, t, u);
    }
  }

  lemma PartIdle(s: State, t: Tid)
    requires Once(s, t)
    ensures t in s.wokenRead ==> RunReader(s, t).Idle(t)
    ensures t in s.wokenWrite ==> RunWriter(s, t).Idle(t)
  {
  }

  lemma PartOnce(s: State, t: Tid, u: Tid)
    requires Once(s, u)
    ensures Once(RunReader(s, t), u) && Once(RunWriter(s, t), u)
    ensures Once(DropReader(s, t), u) && Once(DropWriter(s, t), u) && Once(HandOver(s, t), u)
  {
  }

  lemma StepSeparate(s: State, a: Action, t: Tid)
    requires Separate(s) && Counted(s) && Enabled(s, a, t)
    ensures Separate(Step(s, a, t)) && Counted(Step(s, a, t))
  {
    PartSeparate(s, t);
    match a {
      case AcquireRead => TryReadSeparate(s, t);
      case WakeRead => TryReadSeparate(RunReader(s, t), t);
      case LeaveRead => SignalSeparate(DropReader(s, t));
      case AcquireWrite => TryWriteSeparate(s, t);
      case WakeWrite => TryWriteSeparate(RunWriter(s, t), t);
      case LeaveWrite =>
        SignalSeparate(DropWriter(s, t));
        BroadcastSeparate(HandOver(s, t));
    }
  }

  lemma StepExclusive(s: State, a: Action, t: Tid)
    requires Inv(s) && Enabled(s, a, t)
    ensures Exclusive(Step(s, a, t))
  {
  }

  lemma StepAttended(s: State, a: Action, t: Tid)
    requires Inv(s) && Enabled(s, a, t)
    ensures Attended(Step(s, a, t))
  {
    match a {
      case LeaveWrite =>
        PartSeparate(s, t);
        BroadcastSeparate(HandOver(s, t));
      case _ =>
    }
  }

  lemma {:induction false} Invariant(run: seq<(Action, Tid)>)
    requires Possible(run)
    ensures Inv(After(run))
    decreases |run|
  {
    if run != [] {
      var s, a, t := After(run[..|run| - 1]), run[|run| - 1].0, run[|run| - 1].1;
      Invariant(run[..|run| - 1]);
      StepSeparate(s, a, t);
      StepExclusive(s, a, t);
      StepAttended(s, a, t);
    }
  }

  // ---------------------------------------------------------------------------------------
  // What callers rely on, in every interleaving.

  /** At most one writer, and no reader beside it. */
  lemma MutualExclusion(run: seq<(Action, Tid)>)
    requires Possible(run)
    ensures forall t, u :: t in After(run).writers && u in After(run).writers ==> t == u
    ensures After(run).writers == {} || After(run).readers == {}
  {
    Invariant(run);
    var w := After(run).writers;
    if w != {} {
      var t :| t in w;
      assert w == {t} + (w - {t});
    }
  }

  /** If any thread sleeps, some thread holds the lock or has been woken and will run, and can. */
  lemma SleepersAreAttended(run: seq<(Action, Tid)>)
    requires Possible(run)
    requires After(run).canRead != [] || After(run).canWrite != []
    ensures var s := After(run); s.readers != {} || s.writers != {} || s.wokenRead != {} || s.wokenWrite != {}
    ensures exists a, t :: Enabled(After(run), a, t) && a != AcquireRead && a != AcquireWrite
  {
    Invariant(run);
    var s := After(run);
    if s.readers != {} {
      var t :| t in s.readers;
      assert Enabled(s, LeaveRead, t);
    } else if s.writers != {} {
      var t :| t in s.writers;
      assert Enabled(s, LeaveWrite, t);
    } else if s.wokenRead != {} {
      var t :| t in s.wokenRead;
      assert Enabled(s, WakeRead, t);
    } else {
      var t :| t in s.wokenWrite;
      assert Enabled(s, WakeWrite, t);
    }
  }

  /** The assertions in write_lock_acquire and write_lock_release hold. */
  lemma WriterAssertions(run: seq<(Action, Tid)>, a: Action, t: Tid)
    requires Possible(run) && Enabled(After(run), a, t)
    ensures t in Step(After(run), a, t).writers && t !in After(run).writers ==> Step(After(run), a, t).numWriters == 1
    ensures a == LeaveWrite ==> After(run).numWriters - 1 == 0
  {
    Invariant(run);
    StepSeparate(After(run), a, t);
    StepExclusive(After(run), a, t);
  }

  // ---------------------------------------------------------------------------------------
  // Whose turn it is, from the history of the lock.

  ghost predicate ReadersWait(s: State) {
    s.canRead != [] || s.wokenRead != {}
  }

  // Step k: a writer leaves while readers wait.
  ghost predicate HandsOver(run: seq<(Action, Tid)>, k: int) {
    0 <= k < |run| && run[k].0 == LeaveWrite && ReadersWait(After(run[..k]))
  }

  // Step k: a writer finds the lock taken and goes to sleep.
  ghost predicate WriterSleeps(run: seq<(Action, Tid)>, k: int) {
    && 0 <= k < |run| && (run[k].0 == AcquireWrite || run[k].0 == WakeWrite)
    && run[k].1 in After(run[..k + 1]).canWrite
  }

  // After step k no thread has taken step a.
  ghost predicate NoneSince(run: seq<(Action, Tid)>, k: int, a: Action) {
    forall j :: 0 <= j < |run| && k < j ==> run[j].0 != a
  }

  lemma OneMore(run: seq<(Action, Tid)>, k: int)
    requires run != [] && k < |run| - 1
    ensures var before := run[..|run| - 1];
      && HandsOver(before, k) == HandsOver(run, k) && WriterSleeps(before, k) == WriterSleeps(run, k)
      && forall a :: NoneSince(run, k, a) <==> NoneSince(before, k, a) && run[|run| - 1].0 != a
  {
    if 0 <= k { assert run[..|run| - 1][..k] == run[..k] && run[..|run| - 1][..k + 1] == run[..k + 1]; }
  }

  lemma TurnStep(s: State, a: Action, t: Tid)
    requires Inv(s) && Enabled(s, a, t)
    ensures Step(s, a, t).readerNext == if a == LeaveWrite && ReadersWait(s) then true
                                        else a != LeaveRead && s.readerNext
  {
  }

  /** It is the readers' turn exactly if a writer has left while readers waited and no reader has left
      since. */
  lemma {:induction false} ReadersTurn(run: seq<(Action, Tid)>)
    requires Possible(run)
    ensures After(run).readerNext <==> exists k :: HandsOver(run, k) && NoneSince(run, k, LeaveRead)
    decreases |run|
  {
    hide Inv, Step, Enabled, ReadersWait;
    if run != [] {
      var n := |run| - 1;
      ReadersTurn(run[..n]);
      Invariant(run[..n]);
      TurnStep(After(run[..n]), run[n].0, run[n].1);
      forall k | k < n
        ensures HandsOver(run, k) && NoneSince(run, k, LeaveRead)
           <==> HandsOver(run[..n], k) && NoneSince(run[..n], k, LeaveRead) && run[n].0 != LeaveRead
      {
        OneMore(run, k);
      }
      assert HandsOver(run, n) ==> NoneSince(run, n, LeaveRead);
    }
  }

  lemma PendingStep(s: State, a: Action, t: Tid)
    requires Inv(s) && Enabled(s, a, t)
    ensures var n := Step(s, a, t);
      n.pendingWriter == if (a == AcquireWrite || a == WakeWrite) && t in n.canWrite then true
                         else a != WakeWrite && s.pendingWriter
  {
    assert Once(s, t);
  }

  /** A writer is pending exactly if one has gone to sleep and no writer has been woken and run since. */
  lemma {:induction false} PendingWriterIs(run: seq<(Action, Tid)>)
    requires Possible(run)
    ensures After(run).pendingWriter <==> exists k :: WriterSleeps(run, k) && NoneSince(run, k, WakeWrite)
    decreases |run|
  {
    hide Inv, Step, Enabled;
    if run != [] {
      var n := |run| - 1;
      PendingWriterIs(run[..n]);
      Invariant(run[..n]);
      PendingStep(After(run[..n]), run[n].0, run[n].1);
      forall k | k < n
        ensures WriterSleeps(run, k) && NoneSince(run, k, WakeWrite)
           <==> WriterSleeps(run[..n], k) && NoneSince(run[..n], k, WakeWrite) && run[n].0 != WakeWrite
      {
        OneMore(run, k);
      }
      assert run[..n + 1] == run;
      assert WriterSleeps(run, n) ==> NoneSince(run, n, WakeWrite);
    }
  }

  /** A reader gets in exactly if it is the readers' turn, or no writer is inside or pending; else it
      sleeps behind the others.  A writer gets in exactly if nobody is inside and it is not the readers'
      turn; else it sleeps behind the others. */
  lemma WhoGetsIn(run: seq<(Action, Tid)>, a: Action, t: Tid)
    requires Possible(run) && Enabled(After(run), a, t)
    ensures var s, n := After(run), Step(After(run), a, t);
      && (a == AcquireRead || a == WakeRead ==>
            if s.readerNext || (s.writers == {} && !s.pendingWriter)
            then n.readers == s.readers + {t} && n.canRead == s.canRead
            else n.readers == s.readers && n.canRead == s.canRead + [t])
      && (a == AcquireWrite || a == WakeWrite ==>
            if s.readers == {} && s.writers == {} && !s.readerNext
            then n.writers == {t} && n.canWrite == s.canWrite
            else n.writers == s.writers && n.canWrite == s.canWrite + [t])
  {
    Invariant(run);
  }

  /** A writer that leaves while readers sleep or are woken wakes all of them and no writer, and it is
      their turn; otherwise it wakes the writer that has slept longest.  A reader that leaves wakes
      that writer in any case. */
  lemma WhoIsWoken(run: seq<(Action, Tid)>, a: Action, t: Tid)
    requires Possible(run) && Enabled(After(run), a, t) && (a == LeaveRead || a == LeaveWrite)
    ensures var s, n := After(run), Step(After(run), a, t);
      && (a == LeaveWrite ==> n.writers == {} && n.readers == s.readers)
      && (a == LeaveRead ==> n.readers == s.readers - {t} && n.writers == s.writers)
      && if a == LeaveWrite && ReadersWait(s)
         then && n.readerNext && n.canRead == [] && n.wokenRead == s.wokenRead + Of(s.canRead)
              && n.canWrite == s.canWrite && n.wokenWrite == s.wokenWrite
         else && n.canRead == s.canRead && n.wokenRead == s.wokenRead
              && (s.canWrite == [] ==> n.canWrite == [] && n.wokenWrite == s.wokenWrite)
              && (s.canWrite != [] ==>
                    n.canWrite == s.canWrite[1..] && n.wokenWrite == s.wokenWrite + {s.canWrite[0]})
  {
    Invariant(run);
    MutualExclusion(run);
  }

  /** Every reader that waits when a writer leaves is inside before any writer is, as long as no reader
      has left: until then no writer gets in and none of those readers sleeps again. */
  lemma ReadersGoFirst(run: seq<(Action, Tid)>, t: Tid, more: seq<(Action, Tid)>)
    requires Possible(run + [(LeaveWrite, t)] + more) && ReadersWait(After(run))
    requires NoneSince(more, -1, LeaveRead)
    ensures var s := After(run + [(LeaveWrite, t)] + more);
      && s.writers == {} && s.readerNext
      && forall u :: u in After(run).canRead || u in After(run).wokenRead ==> u in s.wokenRead || u in s.readers
  {
    var left := run + [(LeaveWrite, t)];
    PossiblePrefix(left, more);
    assert left[..|run|] == run;
    Invariant(run);
    WhoIsWoken(run, LeaveWrite, t);
    WokenReadersGoFirst(left, more);
  }

  /** Without that condition it fails every time the last reader inside leaves: the next writer to ask
      gets in, whoever else was woken. */
  lemma WriterOvertakes(run: seq<(Action, Tid)>, r: Tid, w: Tid)
    requires Possible(run) && After(run).readers == {r} && After(run).Idle(w)
    ensures var more := run + [(LeaveRead, r)] + [(AcquireWrite, w)];
      Possible(more) && After(more).writers == {w}
  {
    var left := run + [(LeaveRead, r)];
    assert left[..|run|] == run && (left + [(AcquireWrite, w)])[..|left|] == left;
    Invariant(run);
    WhoIsWoken(run, LeaveRead, r);
    WhoGetsIn(left, AcquireWrite, w);
  }

  lemma {:induction false} PossiblePrefix(run: seq<(Action, Tid)>, more: seq<(Action, Tid)>)
    requires Possible(run + more)
    ensures Possible(run)
    decreases |more|
  {
    if more == [] {
      assert run + more == run;
    } else {
      assert (run + more)[..|run + more| - 1] == run + more[..|more| - 1];
      PossiblePrefix(run, more[..|more| - 1]);
    }
  }

  lemma Grows(run: seq<(Action, Tid)>, k: nat)
    requires k < |run| && Possible(run[..k]) && Enabled(After(run[..k]), run[k].0, run[k].1)
    ensures Possible(run[..k + 1]) && After(run[..k + 1]) == Step(After(run[..k]), run[k].0, run[k].1)
  {
    assert run[..k + 1][..k] == run[..k];
  }

  /** Once a reader has left, a writer may overtake the others: 2 and 3 wait when writer 1 leaves, 2 goes
      in and out, writer 4 gets in, and 3 sleeps again. */
  lemma ReaderOvertaken() returns (run: seq<(Action, Tid)>)
    ensures Possible(run) && |run| == 9 && run[4] == (LeaveWrite, 1) && After(run[..4]).canRead == [2, 3]
    ensures After(run).writers == {4} && After(run).canRead == [3] && run[8] == (WakeRead, 3)
  {
    hide After, Possible;
    run := [(AcquireWrite, 1), (AcquireRead, 2), (AcquireRead, 3), (AcquireWrite, 4), (LeaveWrite, 1),
            (WakeRead, 2), (LeaveRead, 2), (WakeWrite, 4), (WakeRead, 3)];
    Start(run);
    Grows(run, 0);
    Grows(run, 1);
    Grows(run, 2);
    Grows(run, 3);
    assert After(run[..4]) == State(0, 1, 2, true, false, [2, 3], [4], {}, {}, {}, {1});
    ReaderSleepsAgain(run);
    assert run[..9] == run;
  }

  // After a step that leads from s to n.
  lemma GrowsTo(run: seq<(Action, Tid)>, k: nat, s: State, n: State)
    requires k < |run| && Possible(run[..k]) && After(run[..k]) == s && Enabled(s, run[k].0, run[k].1)
    requires Step(s, run[k].0, run[k].1) == n
    ensures Possible(run[..k + 1]) && After(run[..k + 1]) == n
  {
    Grows(run, k);
  }

  lemma ReaderSleepsAgain(run: seq<(Action, Tid)>)
    requires |run| == 9 && run[4] == (LeaveWrite, 1) && run[5] == (WakeRead, 2) && run[6] == (LeaveRead, 2)
    requires run[7] == (WakeWrite, 4) && run[8] == (WakeRead, 3)
    requires Possible(run[..4]) && After(run[..4]) == State(0, 1, 2, true, false, [2, 3], [4], {}, {}, {}, {1})
    ensures Possible(run[..9]) && After(run[..9]) == State(0, 1, 1, false, false, [3], [], {}, {}, {}, {4})
  {
    hide After, Possible;
    var s4 := State(0, 1, 2, true, false, [2, 3], [4], {}, {}, {}, {1});
    var s5 := State(0, 0, 2, true, true, [], [4], {2, 3}, {}, {}, {});
    var s6 := State(1, 0, 1, true, true, [], [4], {3}, {}, {2}, {});
    var s7 := State(0, 0, 1, true, false, [], [], {3}, {4}, {}, {});
    var s8 := State(0, 1, 1, false, false, [], [], {3}, {}, {}, {4});
    var s9 := State(0, 1, 1, false, false, [3], [], {}, {}, {}, {4});
    assert WriteRelease(s4, 1) == s5 by { assert Of([2, 3]) == {2, 3}; }
    assert ResumeRead(s5, 2) == s6;
    assert ReadRelease(s6, 2) == s7;
    assert ResumeWrite(s7, 4) == s8;
    assert ResumeRead(s8, 3) == s9;
    GrowsTo(run, 4, s4, s5);
    GrowsTo(run, 5, s5, s6);
    GrowsTo(run, 6, s6, s7);
    GrowsTo(run, 7, s7, s8);
    GrowsTo(run, 8, s8, s9);
  }

  lemma Start(run: seq<(Action, Tid)>)
    ensures Possible(run[..0]) && After(run[..0]) == Init()
  {
    assert run[..0] == [];
  }

  /** Readers that a writer wakes on release enter before any writer does: until a reader has
      left, no step lets a writer in, and none of the woken readers goes back to sleep. */
  lemma {:induction false} WokenReadersGoFirst(run: seq<(Action, Tid)>, more: seq<(Action, Tid)>)
    requires Possible(run + more) && After(run).readerNext
    requires forall i :: 0 <= i < |more| ==> more[i].0 != LeaveRead
    ensures var s := After(run + more);
            s.writers == {} && s.readerNext && forall t :: t in After(run).wokenRead ==>
                t in s.wokenRead || t in s.readers
    decreases |more|
  {
    Invariant(run + more);
    if more == [] {
      assert run + more == run;
    } else {
      var last := more[|more| - 1];
      assert (run + more)[..|run + more| - 1] == run + more[..|more| - 1];
      WokenReadersGoFirst(run, more[..|more| - 1]);
      Invariant(run + more[..|more| - 1]);
      assert (run + more)[|run + more| - 1] == last;
    }
  }
}
