/** Condition variables of src/threads/synch.c over a lock: every waiter has a semaphore of its own
    that starts at 0; cond_signal raises that of the waiter in front. Here a waiter is known by its
    thread. */
module Condition {
  import opened Sequences
  import opened Options
  import opened Synch

  datatype Monitor = Monitor(lock: Lock, queue: seq<Tid>, semas: map<Tid, Sema>)

  /** lock_init and cond_init. */
  function NewMonitor(): Monitor {
    Monitor(NewLock(), [], map[])
  }

  datatype MonAction = OnLock(a: LockAction) | WaitQueue | WaitDown | WaitAgain | Signal

  // cond_wait queues up, releases the lock in the steps of lock_release, and downs its semaphore;
  // then it is an ordinary caller of lock_acquire. Only the holder may queue up or signal.
  ghost predicate MonEnabled(m: Monitor, a: MonAction, t: Tid) {
    match a
    case OnLock(b) => LockEnabled(m.lock, b, t) && (t in m.semas ==> b == Leave || b == Raise)
    case WaitQueue => m.lock.holder == Some(t) && t !in m.semas
    case WaitDown => t in m.semas && !Inside(m.lock, t) && Idle(m.semas[t], t)
    case WaitAgain => t in m.semas && t in m.semas[t].woken
    case Signal => m.lock.holder == Some(t) && t !in m.semas
  }

  // The waiter's test of its semaphore; if it succeeds the wait is over.
  function WaitTest(m: Monitor, t: Tid, s: Sema): Monitor
    requires t in m.semas
  {
    m.(semas := if s.value > 0 then m.semas - {t} else m.semas[t := Test(s, t)])
  }

  /** cond_signal. */
  function SignalFront(m: Monitor): Monitor {
    if m.queue == [] || m.queue[0] !in m.semas then m
    else m.(queue := m.queue[1..], semas := m.semas[m.queue[0] := Up(m.semas[m.queue[0]])])
  }

  function MonStep(m: Monitor, a: MonAction, t: Tid): Monitor {
    match a
    case OnLock(b) => m.(lock := LockStep(m.lock, b, t))
    case WaitQueue => m.(queue := m.queue + [t], semas := m.semas[t := NewSema(0)])
    case WaitDown => if t in m.semas then WaitTest(m, t, m.semas[t]) else m
    case WaitAgain => if t in m.semas then WaitTest(m, t, m.semas[t].(woken := m.semas[t].woken - {t})) else m
    case Signal => SignalFront(m)
  }

  function MonAfter(run: seq<(MonAction, Tid)>): Monitor {
    if run == [] then NewMonitor() else MonStep(MonAfter(run[..|run| - 1]), run[|run| - 1].0, run[|run| - 1].1)
  }

  ghost predicate MonPossible(run: seq<(MonAction, Tid)>) {
    run == [] ||
    (MonPossible(run[..|run| - 1]) &&
     MonEnabled(MonAfter(run[..|run| - 1]), run[|run| - 1].0, run[|run| - 1].1))
  }

  // A waiter's semaphore was raised exactly if the waiter is off the queue, and then it does not sleep.
  ghost predicate Waiter(m: Monitor, w: Tid) {
    w in m.semas ==>
      var s := m.semas[w];
      && s.value == (if w in m.queue then 0 else 1)
      && (s.waiters == [] || (s.waiters == [w] && w in m.queue))
      && s.woken <= {w} && (s.waiters != [] ==> s.woken == {})
  }

  ghost predicate MonInv(m: Monitor) {
    && LockInv(m.lock) && Distinct(m.queue)
    && (forall w :: w in m.queue ==> w in m.semas)
    && forall w {:trigger Waiter(m, w)} :: Waiter(m, w)
  }

  lemma SignalInv(m: Monitor)
    requires MonInv(m)
    ensures MonInv(SignalFront(m))
    ensures m.queue != [] ==>
      m.queue[0] in m.semas && SignalFront(m).queue == m.queue[1..] && m.queue[0] !in m.queue[1..]
    ensures SignalFront(m).semas.Keys == m.semas.Keys
  {
    if m.queue != [] {
      PopNoDup(m.queue);
      assert m.queue == [m.queue[0]] + m.queue[1..];
      forall w ensures Waiter(SignalFront(m), w) { assert Waiter(m, w); }
    }
  }

  lemma MonStepInv(m: Monitor, a: MonAction, t: Tid)
    requires MonInv(m) && MonEnabled(m, a, t)
    ensures MonInv(MonStep(m, a, t))
  {
    assert Waiter(m, t);
    match a {
      case OnLock(b) => LockStepInv(m.lock, b, t);
      case Signal => SignalInv(m);
      case _ =>
    }
    if a != Signal {
      forall w ensures Waiter(MonStep(m, a, t), w) { assert Waiter(m, w); }
    }
  }

  lemma {:induction false} MonInvariant(run: seq<(MonAction, Tid)>)
    requires MonPossible(run)
    ensures MonInv(MonAfter(run))
    decreases |run|
  {
    if run != [] {
      MonInvariant(run[..|run| - 1]);
      MonStepInv(MonAfter(run[..|run| - 1]), run[|run| - 1].0, run[|run| - 1].1);
    }
  }

  /** The steps of a run that concern the lock. */
  ghost function LockSteps(run: seq<(MonAction, Tid)>): seq<(LockAction, Tid)> {
    if run == [] then []
    else
      var last := run[|run| - 1];
      LockSteps(run[..|run| - 1]) + if last.0.OnLock? then [(last.0.a, last.1)] else []
  }

  /** The lock of the monitor goes through those steps and no others. */
  lemma {:induction false} MonitorLock(run: seq<(MonAction, Tid)>)
    requires MonPossible(run)
    ensures LockPossible(LockSteps(run)) && MonAfter(run).lock == LockAfter(LockSteps(run))
    decreases |run|
  {
    if run != [] {
      MonitorLock(run[..|run| - 1]);
      var last := run[|run| - 1];
      var steps := LockSteps(run);
      if last.0.OnLock? {
        assert steps[..|steps| - 1] == LockSteps(run[..|run| - 1]) && steps[|steps| - 1] == (last.0.a, last.1);
      } else {
        assert steps == LockSteps(run[..|run| - 1]);
      }
    }
  }

  /** The last step at which thread t entered itself in the queue, -1 for none. */
  ghost function LastWait(run: seq<(MonAction, Tid)>, t: Tid): (k: int)
    ensures -1 <= k < |run| && (k >= 0 ==> run[k] == (WaitQueue, t))
    ensures forall j :: k < j < |run| ==> run[j] != (WaitQueue, t)
  {
    if run == [] then -1
    else if run[|run| - 1] == (WaitQueue, t) then |run| - 1
    else LastWait(run[..|run| - 1], t)
  }

  ghost predicate ByWait(q: seq<Tid>, run: seq<(MonAction, Tid)>) {
    && (forall i :: 0 <= i < |q| ==> LastWait(run, q[i]) >= 0)
    && (forall i, j :: 0 <= i < j < |q| ==> LastWait(run, q[i]) < LastWait(run, q[j]))
  }

  lemma QueueStep(m: Monitor, a: MonAction, t: Tid)
    requires MonInv(m) && MonEnabled(m, a, t)
    ensures var q, q' := m.queue, MonStep(m, a, t).queue;
      if a == WaitQueue then t !in q && q' == q + [t] else if a == Signal && q != [] then q' == q[1..] else q' == q
  {
  }

  lemma OrderStep(q: seq<Tid>, q': seq<Tid>, run: seq<(MonAction, Tid)>)
    requires run != [] && ByWait(q, run[..|run| - 1])
    requires var (a, t) := run[|run| - 1];
      if a == WaitQueue then t !in q && q' == q + [t] else if a == Signal && q != [] then q' == q[1..] else q' == q
    ensures ByWait(q', run)
  {
    var before, a, t := run[..|run| - 1], run[|run| - 1].0, run[|run| - 1].1;
    forall i | 0 <= i < |q| ensures LastWait(run, q[i]) == LastWait(before, q[i]) { }
    if a == Signal && q != [] {
      forall i | 0 <= i < |q'| ensures q'[i] == q[i + 1] { }
    } else {
      forall i | 0 <= i < |q'| ensures q'[i] == if i < |q| then q[i] else t { }
    }
  }

  /** The queue stands in the order in which the waiters came. */
  lemma {:induction false} QueueInOrder(run: seq<(MonAction, Tid)>)
    requires MonPossible(run)
    ensures ByWait(MonAfter(run).queue, run)
    decreases |run|
  {
    hide MonInv, MonStep, MonEnabled;
    if run != [] {
      var before := MonAfter(run[..|run| - 1]);
      QueueInOrder(run[..|run| - 1]);
      MonInvariant(run[..|run| - 1]);
      QueueStep(before, run[|run| - 1].0, run[|run| - 1].1);
      OrderStep(before.queue, MonAfter(run).queue, run);
    }
  }

  /** A signal reaches the waiter in front, which has waited longest. */
  lemma SignalTakesFront(run: seq<(MonAction, Tid)>, t: Tid)
    requires MonPossible(run) && MonEnabled(MonAfter(run), Signal, t) && MonAfter(run).queue != []
    ensures var m := MonStep(MonAfter(run), Signal, t);
            m.queue == MonAfter(run).queue[1..] && MonAfter(run).queue[0] in m.semas
                && MonAfter(run).queue[0] !in m.queue
    ensures forall w :: w in MonAfter(run).queue ==> LastWait(run, MonAfter(run).queue[0]) <= LastWait(run, w)
  {
    MonInvariant(run);
    SignalInv(MonAfter(run));
    QueueInOrder(run);
  }

  /** A signal is not lost: from then on, whatever happens, the waiter is not asleep, and its wait
      is over at its next step, even if it had not gone to sleep yet when the signal came. */
  lemma SignalIsNotLost(run: seq<(MonAction, Tid)>, w: Tid)
    requires MonPossible(run) && w in MonAfter(run).semas && w !in MonAfter(run).queue
    ensures var m := MonAfter(run);
            && w !in m.semas[w].waiters
            && (MonEnabled(m, WaitDown, w) ==> w !in MonStep(m, WaitDown, w).semas)
            && (MonEnabled(m, WaitAgain, w) ==> w !in MonStep(m, WaitAgain, w).semas)
            && (Inside(m.lock, w) || MonEnabled(m, WaitDown, w) || MonEnabled(m, WaitAgain, w))
  {
    MonInvariant(run);
    assert Waiter(MonAfter(run), w);
  }

  /** Without a signal the wait goes on. */
  lemma NoSignalNoReturn(run: seq<(MonAction, Tid)>, w: Tid, a: MonAction, t: Tid)
    requires MonPossible(run) && MonEnabled(MonAfter(run), a, t) && w in MonAfter(run).queue
    ensures w in MonStep(MonAfter(run), a, t).semas
  {
    MonInvariant(run);
    assert Waiter(MonAfter(run), w);
    SignalInv(MonAfter(run));
  }

  // ---------------------------------------------------------------------------------------
  // cond_broadcast.

  /** The loop of cond_broadcast. */
  function SignalAll(m: Monitor): Monitor
    decreases |m.queue|
  {
    if m.queue == [] || m.queue[0] !in m.semas then m else SignalAll(SignalFront(m))
  }

  /** A broadcast leaves nobody on the queue. */
  lemma {:induction false} BroadcastTakesAll(m: Monitor)
    requires MonInv(m)
    ensures MonInv(SignalAll(m)) && SignalAll(m).queue == [] && SignalAll(m).semas.Keys == m.semas.Keys
    ensures SignalAll(m).lock == m.lock
    decreases |m.queue|
  {
    if m.queue != [] {
      SignalInv(m);
      BroadcastTakesAll(SignalFront(m));
    }
  }

  /** While a thread holds the lock nobody else changes the queue. */
  lemma QueueBelongsToHolder(run: seq<(MonAction, Tid)>, a: MonAction, t: Tid)
    requires MonPossible(run) && MonEnabled(MonAfter(run), a, t)
    requires MonStep(MonAfter(run), a, t).queue != MonAfter(run).queue
    ensures MonAfter(run).lock.holder == Some(t) && forall u :: Inside(MonAfter(run).lock, u) ==> u == t
  {
    MonInvariant(run);
    var l := MonAfter(run).lock;
    assert |l.got| == 0 && |l.leaving| == 0;
  }
}
