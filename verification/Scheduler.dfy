/** The ready queue of src/threads/scheduler.c. Readings of the clock are parameters. */
module Scheduler {
  import opened Cfs
  import Numbers
  import opened Sequences

  class Thread {
    const tid: int
    const nice: int
    var vruntime: int
    var timerStart: int
    var timerStop: int

    constructor (tid: int, nice: int)
      requires NiceOk(nice)
      ensures this.tid == tid && this.nice == nice && vruntime == timerStart == timerStop == 0
    {
      this.tid := tid;
      this.nice := nice;
      vruntime, timerStart, timerStop := 0, 0, 0;
    }

    /** calc_vruntime.  With bonus 0 and a negative nice value the table is read before its start;
        `stray` is the word found there. */
    function CalcVruntime(bonus: nat, stray: nat): int
      requires bonus <= 20 && timerStart <= timerStop && TableWeight(nice + bonus, stray) > 0
      reads this
    {
      vruntime + (timerStop - timerStart) * TableWeight(bonus, stray) / TableWeight(nice + bonus, stray)
    }
  }

  function TableWeight(i: int, stray: nat): (w: nat)
    ensures 0 <= i < 40 ==> w > 0
  {
    TableSize();
    if 0 <= i < 40 then
      LeastWeight(i);
      PRIO_TO_WEIGHT[i]
    else stray
  }

  // A full slice advances the virtual run time as Cfs.Advance says.
  lemma VruntimeAdvance(t: Thread, d: nat)
    requires NiceOk(t.nice) && t.timerStop == t.timerStart + d
    ensures t.CalcVruntime(20, 0) == t.vruntime + Advance(d, Weight(t.nice))
  {
    DefaultWeight();
  }

  /** With bonus 0 a default thread is charged the time it ran, as with bonus 20. */
  lemma DefaultThreadIsChargedItsTime(t: Thread, d: nat, stray: nat)
    requires t.nice == 0 && t.timerStop == t.timerStart + d
    ensures t.CalcVruntime(0, stray) == t.CalcVruntime(20, stray) == t.vruntime + d
  {
    Quotient(d, TableWeight(0, stray));
    Quotient(d, TableWeight(20, stray));
  }

  lemma Quotient(d: nat, w: nat)
    requires w > 0
    ensures d * w / w == d
  {
    Numbers.Floor(d * w, w, d);
  }

  // a has less virtual run time than b, or as much and no greater id.
  ghost predicate RunsFirst(a: Thread, b: Thread)
    reads a, b
  {
    a.vruntime <= b.vruntime && (a.vruntime == b.vruntime ==> a.tid <= b.tid)
  }

  // One list is the other without x, in the same order.
  ghost predicate TakenOut<T>(before: seq<T>, after: seq<T>, x: T) {
    exists k :: 0 <= k < |before| && before[k] == x && after == RemoveAt(before, k)
  }

  lemma LeaveList<T>(s: seq<T>, k: nat)
    requires Distinct(s) && k < |s|
    ensures var r := RemoveAt(s, k);
      && Distinct(r) && s[k] !in r && (forall x :: x in r ==> x in s) && TakenOut(s, r, s[k])
      && multiset(s) == multiset(r) + multiset{s[k]}
  {
    RemoveAtDistinct(s, k);
    WithoutMultiset(s, k);
    assert s[k] in multiset(s);
  }

  lemma SameThreads<T>(was: seq<T>, current: T, next: T, rest: seq<T>)
    requires multiset(was + [current]) == multiset(rest) + multiset{next}
    ensures multiset([next] + rest) == multiset([current] + was)
    ensures forall t :: t in [next] + rest <==> t in was + [current]
  {
    assert multiset(was + [current]) == multiset([current] + was);
    assert multiset([next] + rest) == multiset(rest) + multiset{next};
    forall t ensures t in [next] + rest <==> t in was + [current] {
      assert t in [next] + rest <==> t in multiset([next] + rest);
      assert t in was + [current] <==> t in multiset(was + [current]);
    }
  }

  // a is to run before b.
  predicate Before(av: int, at: int, bv: int, bt: int) {
    av < bv || (av == bv && at < bt)
  }

  function WeightOf(t: Thread): nat {
    if NiceOk(t.nice) then Weight(t.nice) else 0
  }

  ghost function Weights(s: seq<Thread>): seq<nat> {
    Mapped(s, WeightOf)
  }

  class ReadyQueue {
    var readyList: seq<Thread>
    var nrReady: nat
    var curr: Thread?
    var minVruntime: int

    ghost predicate Valid()
      reads this
    {
      && nrReady == |readyList|
      && Distinct(readyList)
      && (forall i :: 0 <= i < |readyList| ==> NiceOk(readyList[i].nice))
      && (curr != null ==> NiceOk(curr.nice))
    }

    /** sched_init. */
    constructor ()
      ensures Valid() && readyList == [] && curr == null && minVruntime == 0
    {
      readyList := [];
      nrReady := 0;
      curr := null;
      minVruntime := 0;
    }

    // The runnable threads: the current one and those that wait.
    ghost function Runnable(): seq<Thread>
      reads this
    {
      if curr == null then readyList else [curr] + readyList
    }

    /** set_min_vruntime: the least virtual run time that counts, or 0 if none does. */
    method SetMinVruntime()
      requires Valid()
      modifies this`minVruntime
      ensures minVruntime == 0 || exists t :: t in Runnable() && t.vruntime == minVruntime
      ensures forall t :: t in Runnable() && t.vruntime != 0 && t.vruntime < INT64_MAX ==>
        minVruntime <= t.vruntime && minVruntime != 0
    {
      hide Valid;
      var least := INT64_MAX;
      if curr != null {
        least := Min(curr.vruntime, least);
        assert curr in Runnable();
      }
      var i := 0;
      while i < |readyList|
        invariant i <= |readyList| && least <= INT64_MAX && least != 0
        invariant least == INT64_MAX || exists t :: t in Runnable() && t.vruntime == least
        invariant curr != null && curr.vruntime != 0 ==> least <= curr.vruntime || curr.vruntime > INT64_MAX
        invariant forall j :: 0 <= j < i && readyList[j].vruntime != 0 ==>
          least <= readyList[j].vruntime || readyList[j].vruntime > INT64_MAX
      {
        assert readyList[i] in Runnable();
        least := Min(readyList[i].vruntime, least);
        i := i + 1;
      }
      minVruntime := if least == INT64_MAX then 0 else least;
    }

    /** queue_total_weight. */
    method QueueTotalWeight() returns (total: nat)
      requires Valid()
      ensures total == if Runnable() != [] then Total(Weights(Runnable())) else 1
      ensures total > 0
    {
      ghost var ws := Weights(Runnable());
      ghost var k := 0;
      total := 0;
      if curr != null {
        TotalNext(ws, k);
        total := total + WeightOf(curr);
        k := k + 1;
      }
      var i := 0;
      while i < |readyList|
        invariant i <= |readyList| && k == i + |ws| - |readyList| && total == Total(ws[..k])
      {
        TotalNext(ws, k);
        total := total + WeightOf(readyList[i]);
        k := k + 1;
        i := i + 1;
      }
      assert ws[..k] == ws;
      if total == 0 {
        PositiveTotal();
        total := 1;
      }
    }

    lemma PositiveTotal()
      requires Valid()
      ensures Runnable() != [] ==> Total(Weights(Runnable())) > 0
    {
      if Runnable() != [] {
        var last := Runnable()[|Runnable()| - 1];
        assert NiceOk(last.nice);
      }
    }

    /** calc_ideal_runtime of a runnable thread: its slice of a round of all runnable threads. */
    method CalcIdealRuntime(t: Thread) returns (slice: nat)
      requires Valid() && Runnable() != []
      ensures Total(Weights(Runnable())) > 0
      ensures slice == Slice(|Runnable()|, WeightOf(t), Total(Weights(Runnable())))
    {
      var n := if curr != null then nrReady + 1 else nrReady;
      var s := QueueTotalWeight();
      slice := Slice(n, WeightOf(t), s);
    }

    // The place of find_thread's result.
    method FindThread() returns (k: nat)
      requires Valid() && readyList != []
      ensures k < |readyList|
      ensures forall j :: 0 <= j < |readyList| ==> RunsFirst(readyList[k], readyList[j])
    {
      k := 0;
      var i := 0;
      while i < |readyList|
        invariant i <= |readyList| && k < |readyList|
        invariant forall j :: 0 <= j < i ==>
                    !Before(readyList[j].vruntime, readyList[j].tid, readyList[k].vruntime, readyList[k].tid)
      {
        if Before(readyList[i].vruntime, readyList[i].tid, readyList[k].vruntime, readyList[k].tid) {
          k := i;
        }
        i := i + 1;
      }
    }

    /** sched_pick_next: the thread with the least virtual run time, and the least id among those,
        leaves the ready list. */
    method PickNext(now: int) returns (ret: Thread?)
      requires Valid()
      modifies this`readyList, this`nrReady, readyList
      ensures Valid() && (ret == null <==> old(readyList) == [])
      ensures ret == null ==> readyList == []
      ensures ret != null ==> ret !in readyList && multiset(old(readyList)) == multiset(readyList) + multiset{ret}
      ensures ret != null ==> NiceOk(ret.nice) && ret.timerStart == now
      ensures ret != null ==> forall t :: t in old(readyList) ==> RunsFirst(ret, t)
      ensures ret != null ==> TakenOut(old(readyList), readyList, ret)
      ensures forall t :: t in old(readyList) ==> t.vruntime == old(t.vruntime) && t.timerStop == old(t.timerStop)
      ensures forall t :: t in old(readyList) && t != ret ==> t.timerStart == old(t.timerStart)
    {
      if readyList == [] {
        return null;
      }
      hide TakenOut, Distinct, RemoveAt;
      var k := FindThread();
      ret := readyList[k];
      LeaveList(readyList, k);
      readyList := RemoveAt(readyList, k);
      ret.timerStart := now;
      nrReady := nrReady - 1;
    }

    /** sched_yield. */
    method Yield(current: Thread, now: int)
      requires Valid() && current !in readyList && NiceOk(current.nice) && current.timerStart <= now
      modifies this`readyList, this`nrReady, current`timerStop, current`vruntime
      ensures Valid() && readyList == old(readyList) + [current] && current.timerStop == now
      ensures current.vruntime == old(current.vruntime) + Advance(now - current.timerStart, Weight(current.nice))
    {
      readyList := readyList + [current];
      nrReady := nrReady + 1;
      current.timerStop := now;
      VruntimeAdvance(current, now - current.timerStart);
      current.vruntime := current.CalcVruntime(20, 0);
    }

    // sched_yield by the current thread and sched_pick_next.
    method YieldAndPick(now: int, later: int) returns (next: Thread)
      requires Valid() && curr != null && curr !in readyList && curr.timerStart <= now
      modifies this`readyList, this`nrReady, curr, readyList
      ensures Valid() && next !in readyList && NiceOk(next.nice)
      ensures multiset(old(readyList) + [curr]) == multiset(readyList) + multiset{next}
      ensures forall t :: t in old(readyList) + [curr] ==> RunsFirst(next, t)
      ensures next.timerStart == later && curr.timerStop == now
      ensures curr.vruntime == old(curr.vruntime + Advance(now - curr.timerStart, Weight(curr.nice)))
      ensures forall t :: t in old(readyList) ==> t.vruntime == old(t.vruntime)
    {
      hide Valid, TakenOut, Distinct, RunsFirst, Weight, Advance, NiceOk;
      CurrentIsNice();
      Yield(curr, now);
      next := PickNext(later);
    }

    /** thread_yield and schedule: the current thread joins the ready list and the least thread of
        it becomes current. The set of runnable threads stays the same. */
    method Reschedule(now: int, later: int)
      requires Valid() && curr != null && curr !in readyList && curr.timerStart <= now
      modifies this`readyList, this`nrReady, this`curr, curr, readyList
      ensures Valid() && curr != null && curr !in readyList
      ensures multiset(Runnable()) == multiset(old(Runnable()))
      ensures forall t :: t in Runnable() ==> RunsFirst(curr, t)
      ensures curr.timerStart == later && old(curr).timerStop == now
      ensures old(curr).vruntime == old(curr.vruntime + Advance(now - curr.timerStart, Weight(curr.nice)))
      ensures forall t :: t in old(readyList) ==> t.vruntime == old(t.vruntime)
    {
      hide Valid, RunsFirst, Weight, Advance, NiceOk;
      CurrentIsNice();
      var next := YieldAndPick(now, later);
      SameThreads(old(readyList), curr, next, readyList);
      Install(next);
    }

    // schedule: the thread that was picked becomes current.
    method Install(next: Thread)
      requires Valid() && NiceOk(next.nice)
      modifies this`curr
      ensures Valid() && curr == next
    {
      curr := next;
    }

    lemma CurrentIsNice()
      requires Valid() && curr != null
      ensures NiceOk(curr.nice)
    {
    }

    // What sched_unblock does to the current thread first.
    method Account(now: int, later: int)
      requires Valid() && curr != null && curr.timerStart <= now
      modifies curr`timerStop, curr`vruntime, curr`timerStart
      ensures curr.timerStop == now && curr.timerStart == later
      ensures curr.vruntime == old(curr.vruntime) + Advance(now - old(curr.timerStart), Weight(curr.nice))
    {
      curr.timerStop := now;
      VruntimeAdvance(curr, now - curr.timerStart);
      curr.vruntime := curr.CalcVruntime(20, 0);
      curr.timerStart := later;
    }

    /** sched_unblock: a thread that slept joins the list with the time it ran before charged to it,
        but not further behind the least virtual run time than 20 ms. */
    method Unblock(t: Thread, initial: bool, now: int, later: int, stray: nat) returns (reschedule: bool)
      requires Valid() && NiceOk(t.nice) && t !in readyList && t != curr && (curr != null ==> curr.timerStart <= now)
      requires curr != null && !initial ==> t.timerStart <= t.timerStop && (t.nice < 0 ==> stray > 0)
      modifies this`readyList, this`nrReady, this`minVruntime, t`vruntime, curr
      ensures Valid() && readyList == old(readyList) + [t] && curr == old(curr)
      ensures reschedule <==> curr == null || !initial
      ensures curr == null ==> t.vruntime == old(t.vruntime)
      ensures curr != null && !initial ==>
        t.vruntime == Max(old(t.CalcVruntime(0, stray)), minVruntime - 20000000)
      ensures curr != null && initial ==> t.vruntime == if minVruntime != 0 then minVruntime else curr.vruntime
      ensures curr != null ==>
        curr.vruntime == old(curr.vruntime) + Advance(now - old(curr.timerStart), Weight(curr.nice))
      ensures curr != null ==> curr.timerStop == now && curr.timerStart == later
      ensures curr == null || (initial && now == old(curr.timerStart)) ==> minVruntime == old(minVruntime)
      ensures curr != null && (!initial || now != old(curr.timerStart)) ==>
                forall x :: x in old(Runnable()) && x.vruntime != 0 && x.vruntime < INT64_MAX ==>
                    minVruntime <= x.vruntime && minVruntime != 0
      ensures curr != null && (!initial || now != old(curr.timerStart)) ==>
                minVruntime == 0 || exists x :: x in old(Runnable()) && x.vruntime == minVruntime
    {
      if curr != null {
        var before := curr.timerStart;
        Account(now, later);
        if !initial {
          SetMinVruntime();
          t.vruntime := t.CalcVruntime(0, stray);
          t.vruntime := Max(t.vruntime, minVruntime - 20000000);
        } else {
          if now - before != 0 {
            SetMinVruntime();
          }
          t.vruntime := if minVruntime != 0 then minVruntime else curr.vruntime;
        }
      }
      readyList := readyList + [t];
      nrReady := nrReady + 1;
      reschedule := curr == null || !initial;
    }
  }

  // ---------------------------------------------------------------------------------------
  // A fixed set of runnable threads.

  lemma TotalNext(ws: seq<nat>, k: nat)
    requires k < |ws|
    ensures Total(ws[..k + 1]) == Total(ws[..k]) + ws[k]
  {
    assert ws[..k + 1][..k] == ws[..k];
  }

  /** As long as the same threads are runnable, the length of a thread's slice does not depend on
      which of them is current. */
  lemma SliceIsSettled(a: seq<Thread>, b: seq<Thread>, t: Thread)
    requires multiset(a) == multiset(b) && Total(Weights(a)) > 0
    ensures |a| == |b| && Total(Weights(a)) == Total(Weights(b))
    ensures Slice(|a|, WeightOf(t), Total(Weights(a))) == Slice(|b|, WeightOf(t), Total(Weights(b)))
  {
    assert |a| == |multiset(a)| == |multiset(b)| == |b|;
    MappedPermutation(a, b, WeightOf);
    TotalOfPermutation(Weights(a), Weights(b));
  }

  function Max(x: int, y: int): (m: int)
    ensures x <= m && y <= m && (m == x || m == y)
  {
    if x > y then x else y
  }

  const INT64_MAX := 0x7FFF_FFFF_FFFF_FFFF

  /** min as scheduler.c has it: 0 does not count as x. */
  function Min(x: int, y: int): (m: int)
    ensures x != 0 ==> m <= x && m <= y && (m == x || m == y)
    ensures x == 0 ==> m == y
  {
    if x < y && x != 0 then x else y
  }
}
