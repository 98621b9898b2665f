/** Semaphores, locks and condition variables of src/threads/synch.c as step systems. What a thread
    does under a semaphore's spinlock is one step. A thread taken off a waiter list is `woken` until
    it runs and tests the value again; others may get there first. */
module Synch {
  import opened Sequences
  import opened Options

  type Tid = nat

  // ---------------------------------------------------------------------------------------
  // Semaphores.

  /** A semaphore with the history of its operations: how often it was raised and how many downs
      have completed. */
  datatype Sema = Sema(value: nat, waiters: seq<Tid>, woken: set<Tid>, initial: nat, ups: nat, downs: nat)

  /** sema_init. */
  function NewSema(value: nat): Sema {
    Sema(value, [], {}, value, 0, 0)
  }

  // The test of the loop in sema_down: decrement and go, or queue up and sleep.
  function Test(s: Sema, t: Tid): Sema {
    if s.value == 0 then s.(waiters := s.waiters + [t]) else s.(value := s.value - 1, downs := s.downs + 1)
  }

  function Retry(s: Sema, t: Tid): Sema {
    Test(s.(woken := s.woken - {t}), t)
  }

  /** sema_try_down. */
  function TryDown(s: Sema): (Sema, bool) {
    if s.value > 0 then (s.(value := s.value - 1, downs := s.downs + 1), true) else (s, false)
  }

  /** sema_up. */
  function Up(s: Sema): Sema {
    var u := if s.waiters == [] then s else s.(waiters := s.waiters[1..], woken := s.woken + {s.waiters[0]});
    u.(value := u.value + 1, ups := u.ups + 1)
  }

  ghost predicate Idle(s: Sema, t: Tid) {
    t !in s.waiters && t !in s.woken
  }

  datatype SemaAction = DoDown | DoRetry | DoTryDown | DoUp

  ghost predicate SemaEnabled(s: Sema, a: SemaAction, t: Tid) {
    match a
    case DoDown => Idle(s, t)
    case DoRetry => t in s.woken
    case DoTryDown => Idle(s, t)
    case DoUp => true
  }

  function SemaStep(s: Sema, a: SemaAction, t: Tid): Sema {
    match a
    case DoDown => Test(s, t)
    case DoRetry => Retry(s, t)
    case DoTryDown => TryDown(s).0
    case DoUp => Up(s)
  }

  function SemaAfter(initial: nat, run: seq<(SemaAction, Tid)>): Sema {
    if run == [] then NewSema(initial)
    else SemaStep(SemaAfter(initial, run[..|run| - 1]), run[|run| - 1].0, run[|run| - 1].1)
  }

  ghost predicate SemaPossible(initial: nat, run: seq<(SemaAction, Tid)>) {
    run == [] ||
    (SemaPossible(initial, run[..|run| - 1]) &&
     SemaEnabled(SemaAfter(initial, run[..|run| - 1]), run[|run| - 1].0, run[|run| - 1].1))
  }

  /** The value is what is left, and as long as somebody sleeps every unit of it has somebody on
      the way. */
  ghost predicate SemaInv(s: Sema) {
    && s.value + s.downs == s.initial + s.ups
    && (s.waiters != [] ==> s.value <= |s.woken|)
    && Distinct(s.waiters) && forall t :: t in s.waiters ==> t !in s.woken
  }

  lemma PopNoDup(q: seq<Tid>)
    requires Distinct(q) && q != []
    ensures Distinct(q[1..]) && q[0] !in q[1..]
  {
    assert forall i :: 0 <= i < |q| - 1 ==> q[1..][i] == q[i + 1];
  }

  lemma SemaStepInv(s: Sema, a: SemaAction, t: Tid)
    requires SemaInv(s) && SemaEnabled(s, a, t)
    ensures SemaInv(SemaStep(s, a, t))
  {
    if a == DoUp && s.waiters != [] { PopNoDup(s.waiters); }
  }

  lemma {:induction false} SemaInvariant(initial: nat, run: seq<(SemaAction, Tid)>)
    requires SemaPossible(initial, run)
    ensures SemaInv(SemaAfter(initial, run)) && SemaAfter(initial, run).initial == initial
    decreases |run|
  {
    if run != [] {
      SemaInvariant(initial, run[..|run| - 1]);
      SemaStepInv(SemaAfter(initial, run[..|run| - 1]), run[|run| - 1].0, run[|run| - 1].1);
    }
  }

  // Which steps of a run raised the semaphore, and which took a unit.
  ghost function Ups(run: seq<(SemaAction, Tid)>): nat {
    if run == [] then 0 else Ups(run[..|run| - 1]) + (if run[|run| - 1].0 == DoUp then 1 else 0)
  }

  ghost function CompletedDowns(initial: nat, run: seq<(SemaAction, Tid)>): nat {
    if run == [] then 0
    else
      CompletedDowns(initial, run[..|run| - 1]) +
      (if run[|run| - 1].0 != DoUp && SemaAfter(initial, run[..|run| - 1]).value > 0 then 1 else 0)
  }

  lemma {:induction false} Counted(initial: nat, run: seq<(SemaAction, Tid)>)
    ensures SemaAfter(initial, run).ups == Ups(run) && SemaAfter(initial, run).downs == CompletedDowns(initial, run)
    decreases |run|
  {
    if run != [] { Counted(initial, run[..|run| - 1]); }
  }

  /** In every run: value = initial + ups - completed downs, and while a thread sleeps the value is
      at most the number of woken threads that have yet to retry. */
  lemma SemaphoreLaw(initial: nat, run: seq<(SemaAction, Tid)>)
    requires SemaPossible(initial, run)
    ensures SemaAfter(initial, run).value == initial + Ups(run) - CompletedDowns(initial, run)
    ensures SemaAfter(initial, run).waiters != [] ==> SemaAfter(initial, run).value <= |SemaAfter(initial, run).woken|
  {
    SemaInvariant(initial, run);
    Counted(initial, run);
  }

  /** A thread that calls sema_down, or tries again after it was woken, takes a unit if there is one, and
      otherwise goes to sleep behind the others.  sema_try_down takes one if there is one, and never
      sleeps. */
  lemma DownTakesOrSleeps(initial: nat, run: seq<(SemaAction, Tid)>, a: SemaAction, t: Tid)
    requires SemaPossible(initial, run) && SemaEnabled(SemaAfter(initial, run), a, t) && a != DoUp
    ensures var s, u := SemaAfter(initial, run), SemaAfter(initial, run + [(a, t)]);
      && t !in u.woken && u.value == s.value - (if s.value > 0 then 1 else 0)
      && u.waiters == s.waiters + (if s.value == 0 && a != DoTryDown then [t] else [])
      && CompletedDowns(initial, run + [(a, t)]) == CompletedDowns(initial, run) + (if s.value > 0 then 1 else 0)
  {
    assert (run + [(a, t)])[..|run|] == run;
    SemaInvariant(initial, run);
  }

  /** The last step at which thread t tested the value in sema_down, -1 for none. */
  ghost function LastTest(run: seq<(SemaAction, Tid)>, t: Tid): (k: int)
    ensures -1 <= k < |run| && (k >= 0 ==> run[k].1 == t && (run[k].0 == DoDown || run[k].0 == DoRetry))
    ensures forall j :: k < j < |run| && run[j].1 == t ==> run[j].0 != DoDown && run[j].0 != DoRetry
  {
    if run == [] then -1
    else
      var last := run[|run| - 1];
      if last.1 == t && (last.0 == DoDown || last.0 == DoRetry) then |run| - 1 else LastTest(run[..|run| - 1], t)
  }

  // Those asleep stand in the order in which they went to sleep.
  ghost predicate BySleep(q: seq<Tid>, run: seq<(SemaAction, Tid)>) {
    && (forall i :: 0 <= i < |q| ==> LastTest(run, q[i]) >= 0)
    && (forall i, j :: 0 <= i < j < |q| ==> LastTest(run, q[i]) < LastTest(run, q[j]))
  }

  lemma QueueStep(s: Sema, a: SemaAction, t: Tid)
    requires SemaInv(s) && SemaEnabled(s, a, t)
    ensures var q, q' := s.waiters, SemaStep(s, a, t).waiters;
      && (a == DoDown || a == DoRetry ==> t !in q && (q' == q || q' == q + [t]))
      && (a == DoTryDown ==> q' == q) && (a == DoUp ==> q' == if q == [] then q else q[1..])
  {
  }

  lemma OrderStep(q: seq<Tid>, q': seq<Tid>, run: seq<(SemaAction, Tid)>)
    requires run != [] && BySleep(q, run[..|run| - 1])
    requires var (a, t) := run[|run| - 1];
      && (a == DoDown || a == DoRetry ==> t !in q && (q' == q || q' == q + [t]))
      && (a == DoTryDown ==> q' == q) && (a == DoUp ==> q' == if q == [] then q else q[1..])
    ensures BySleep(q', run)
  {
    var before, a, t := run[..|run| - 1], run[|run| - 1].0, run[|run| - 1].1;
    forall i | 0 <= i < |q| ensures LastTest(run, q[i]) == LastTest(before, q[i]) { }
    if a == DoUp && q != [] {
      forall i | 0 <= i < |q'| ensures q'[i] == q[i + 1] { }
    } else {
      forall i | 0 <= i < |q'| ensures q'[i] == if i < |q| then q[i] else t { }
    }
  }

  lemma {:induction false} SleepersInOrder(initial: nat, run: seq<(SemaAction, Tid)>)
    requires SemaPossible(initial, run)
    ensures BySleep(SemaAfter(initial, run).waiters, run)
    decreases |run|
  {
    hide SemaInv, SemaStep, SemaEnabled;
    if run != [] {
      var before := SemaAfter(initial, run[..|run| - 1]);
      SleepersInOrder(initial, run[..|run| - 1]);
      SemaInvariant(initial, run[..|run| - 1]);
      QueueStep(before, run[|run| - 1].0, run[|run| - 1].1);
      OrderStep(before.waiters, SemaAfter(initial, run).waiters, run);
    }
  }

  /** sema_up wakes the thread that has slept longest, and no other. */
  lemma SleptLongestIsWoken(initial: nat, run: seq<(SemaAction, Tid)>) returns (v: Tid)
    requires SemaPossible(initial, run) && SemaAfter(initial, run).waiters != []
    ensures var s, u := SemaAfter(initial, run), Up(SemaAfter(initial, run));
      && v in s.waiters && u.woken == s.woken + {v} && (forall w :: w in u.waiters <==> w in s.waiters && w != v)
      && forall w :: w in s.waiters ==> LastTest(run, v) <= LastTest(run, w)
  {
    var q := SemaAfter(initial, run).waiters;
    SleepersInOrder(initial, run);
    SemaInvariant(initial, run);
    PopNoDup(q);
    v := q[0];
    assert q == [v] + q[1..];
  }

  // ---------------------------------------------------------------------------------------
  // Locks.

  /** A lock: threads that have the semaphore but are not yet, or no longer, entered as holder. */
  datatype Lock = Lock(sema: Sema, holder: Option<Tid>, got: set<Tid>, leaving: set<Tid>)

  /** lock_init. */
  function NewLock(): Lock {
    Lock(NewSema(1), None, {}, {})
  }

  ghost predicate Outside(l: Lock, t: Tid) {
    Idle(l.sema, t) && l.holder != Some(t) && t !in l.got && t !in l.leaving
  }

  datatype LockAction = Acquire | Again | TryAcquire | Enter | Leave | Raise

  // lock_acquire and lock_release by a thread that may call them, in the steps they consist of.
  ghost predicate LockEnabled(l: Lock, a: LockAction, t: Tid) {
    match a
    case Acquire => Outside(l, t)
    case Again => t in l.sema.woken
    case TryAcquire => Outside(l, t)
    case Enter => t in l.got
    case Leave => l.holder == Some(t)
    case Raise => t in l.leaving
  }

  function LockStep(l: Lock, a: LockAction, t: Tid): Lock {
    match a
    case Acquire => l.(sema := Test(l.sema, t), got := if l.sema.value > 0 then l.got + {t} else l.got)
    case Again => l.(sema := Retry(l.sema, t), got := if l.sema.value > 0 then l.got + {t} else l.got)
    case TryAcquire => l.(sema := TryDown(l.sema).0, got := if TryDown(l.sema).1 then l.got + {t} else l.got)
    case Enter => l.(holder := Some(t), got := l.got - {t})
    case Leave => l.(holder := None, leaving := l.leaving + {t})
    case Raise => l.(sema := Up(l.sema), leaving := l.leaving - {t})
  }

  function LockAfter(run: seq<(LockAction, Tid)>): Lock {
    if run == [] then NewLock() else LockStep(LockAfter(run[..|run| - 1]), run[|run| - 1].0, run[|run| - 1].1)
  }

  ghost predicate LockPossible(run: seq<(LockAction, Tid)>) {
    run == [] ||
    (LockPossible(run[..|run| - 1]) &&
     LockEnabled(LockAfter(run[..|run| - 1]), run[|run| - 1].0, run[|run| - 1].1))
  }

  // A thread is in one place.
  ghost predicate OnePlace(l: Lock, t: Tid) {
    && (!Idle(l.sema, t) ==> l.holder != Some(t) && t !in l.got && t !in l.leaving)
    && (l.holder == Some(t) ==> t !in l.got && t !in l.leaving)
    && (t in l.got ==> t !in l.leaving)
  }

  /** The unit of the semaphore is with the semaphore or with one thread. */
  ghost predicate LockInv(l: Lock) {
    && SemaInv(l.sema)
    && l.sema.value + |l.got| + |l.leaving| + (if l.holder == None then 0 else 1) == 1
    && forall t {:trigger OnePlace(l, t)} :: OnePlace(l, t)
  }

  lemma LockStepInv(l: Lock, a: LockAction, t: Tid)
    requires LockInv(l) && LockEnabled(l, a, t)
    ensures LockInv(LockStep(l, a, t))
  {
    LockSema(l, a, t);
    LockUnit(l, a, t);
    forall u ensures OnePlace(LockStep(l, a, t), u) { LockPlace(l, a, t, u); }
  }

  lemma LockSema(l: Lock, a: LockAction, t: Tid)
    requires LockInv(l) && LockEnabled(l, a, t)
    ensures SemaInv(LockStep(l, a, t).sema)
  {
    hide SemaInv;
    match a {
      case Acquire => SemaStepInv(l.sema, DoDown, t);
      case Again => SemaStepInv(l.sema, DoRetry, t);
      case TryAcquire => SemaStepInv(l.sema, DoTryDown, t);
      case Raise => SemaStepInv(l.sema, DoUp, t);
      case _ =>
    }
  }

  lemma LockUnit(l: Lock, a: LockAction, t: Tid)
    requires LockInv(l) && LockEnabled(l, a, t)
    ensures var m := LockStep(l, a, t);
      m.sema.value + |m.got| + |m.leaving| + (if m.holder == None then 0 else 1) == 1
  {
    assert OnePlace(l, t);
  }

  lemma LockPlace(l: Lock, a: LockAction, t: Tid, u: Tid)
    requires LockInv(l) && LockEnabled(l, a, t)
    ensures OnePlace(LockStep(l, a, t), u)
  {
    hide LockStep, OnePlace;
    assert OnePlace(l, t) && OnePlace(l, u);
    PlaceStep(l, a, t, u);
  }

  lemma PlaceStep(l: Lock, a: LockAction, t: Tid, u: Tid)
    requires OnePlace(l, t) && OnePlace(l, u) && LockEnabled(l, a, t) && (t in l.sema.waiters ==> t !in l.sema.woken)
    ensures OnePlace(LockStep(l, a, t), u)
  {
    if u != t {
      IdleStep(l, a, t, u);
    } else if a == Raise && l.sema.waiters != [] {
      assert l.sema.waiters == [l.sema.waiters[0]] + l.sema.waiters[1..];
    }
  }

  // A step changes the place of the thread that takes it, and wakes sleepers.
  lemma IdleStep(l: Lock, a: LockAction, t: Tid, u: Tid)
    requires u != t
    ensures Idle(LockStep(l, a, t).sema, u) == Idle(l.sema, u)
  {
    if a == Raise && l.sema.waiters != [] { assert l.sema.waiters == [l.sema.waiters[0]] + l.sema.waiters[1..]; }
  }

  lemma {:induction false} LockInvariant(run: seq<(LockAction, Tid)>)
    requires LockPossible(run)
    ensures LockInv(LockAfter(run))
    decreases |run|
  {
    if run != [] {
      LockInvariant(run[..|run| - 1]);
      LockStepInv(LockAfter(run[..|run| - 1]), run[|run| - 1].0, run[|run| - 1].1);
    }
  }

  // Inside: from the completed sema_down of lock_acquire to the sema_up of lock_release.
  ghost predicate Inside(l: Lock, t: Tid) {
    t in l.got || l.holder == Some(t) || t in l.leaving
  }

  lemma SingletonSet(s: set<Tid>, t: Tid, u: Tid)
    requires |s| <= 1 && t in s && u in s
    ensures t == u
  {
    assert s == {t} + (s - {t});
  }

  /** In every run at most one thread has the lock. */
  lemma AtMostOneHolder(run: seq<(LockAction, Tid)>, t: Tid, u: Tid)
    requires LockPossible(run) && Inside(LockAfter(run), t) && Inside(LockAfter(run), u)
    ensures t == u
  {
    LockInvariant(run);
    var l := LockAfter(run);
    if t in l.got && u in l.got { SingletonSet(l.got, t, u); }
    if t in l.leaving && u in l.leaving { SingletonSet(l.leaving, t, u); }
  }

  /** Nobody sleeps on a free lock unless somebody is on the way to it, and somebody inside or on the way
      can take the next step. */
  lemma FreeLockIsTaken(run: seq<(LockAction, Tid)>)
    requires LockPossible(run) && LockAfter(run).sema.waiters != []
    ensures var l := LockAfter(run); l.sema.value == 0 || l.sema.woken != {}
    ensures var l := LockAfter(run); l.sema.value == 0 ==> exists t :: Inside(l, t)
    ensures exists a, t :: LockEnabled(LockAfter(run), a, t) && a != Acquire && a != TryAcquire
  {
    LockInvariant(run);
    var l := LockAfter(run);
    if l.sema.value == 0 {
      if l.got != {} {
        var t :| t in l.got;
        assert Inside(l, t) && LockEnabled(l, Enter, t);
      } else if l.leaving != {} {
        var t :| t in l.leaving;
        assert Inside(l, t) && LockEnabled(l, Raise, t);
      } else {
        assert Inside(l, l.holder.value) && LockEnabled(l, Leave, l.holder.value);
      }
    } else {
      var t :| t in l.sema.woken;
      assert LockEnabled(l, Again, t);
    }
  }
}
