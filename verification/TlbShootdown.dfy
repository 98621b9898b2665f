/** The TLB shootdown of src/userprog/pagedir.c as a step system. Page directories have versions,
    one more for every change; a CPU's TLB holds translations of its active page directory, each of
    the version it was read from. CPUs fill their TLBs and switch page directories at any time. */
module TlbShootdown {

  type Cpu = nat
  type Pd = nat

  // How far the owner of tlb_flush_state.lock has come. `since` is the version of the page directory
  // that the flush is to make visible everywhere.
  datatype Phase =
    | Unlocked
    | Locked(target: Pd, since: nat)                    // the lock is held
    | Prepared(target: Pd, since: nat)                  // remaining and pd are set
    | Waiting(target: Pd, since: nat, self: Cpu)        // the interrupts are sent

  datatype State = State(
    version: map<Pd, nat>, active: seq<Pd>, tlb: seq<set<nat>>,
    phase: Phase, pd: Pd, remaining: int,         // the lock's owner and the shared tlb_flush_state
    pending: set<Cpu>,                            // interrupt sent, not yet taken
    handling: set<Cpu>,                           // handler past its flush, before its decrement
    acks: seq<nat>)                               // decrements by each CPU since the interrupts were sent
  {
    ghost predicate Shape() { |active| == |tlb| == |acks| }

    function Version(p: Pd): nat {
      if p in version then version[p] else 0
    }
  }

  ghost predicate Initial(s: State) {
    && s.Shape() && |s.active| > 0 && s.phase == Unlocked && s.pending == {} && s.handling == {}
    && forall c :: 0 <= c < |s.tlb| ==> s.tlb[c] == {}
  }

  datatype Action =
    | Change(p: Pd)               // some thread changes an entry of p
    | Fill(c: Cpu)                // c caches a translation
    | Switch(c: Cpu, p: Pd)       // c loads p, which empties its TLB
    | TakeLock(p: Pd)             // invalidate_pagedir_others (p), and what it does
    | Prepare
    | Send(c: Cpu)
    | Flush(c: Cpu)               // pagedir_handle_tlbflush_request: the test and the reload
    | Decrement(c: Cpu)           // and its last line
    | DropLock

  // Send is by a thread whose own page directory is active where it runs, and that is not the target.
  ghost predicate Enabled(s: State, a: Action) {
    s.Shape() &&
    match a
    case Change(p) => true
    case Fill(c) => c < |s.active|
    case Switch(c, p) => c < |s.active|
    case TakeLock(p) => s.phase == Unlocked
    case Prepare => s.phase.Locked?
    case Send(c) => s.phase.Prepared? && c < |s.active| && s.active[c] != s.phase.target
    case Flush(c) => c in s.pending && c < |s.active|
    case Decrement(c) => c in s.handling && c < |s.active|
    case DropLock => s.phase.Waiting? && s.remaining <= 0
  }

  function AllBut(n: nat, c: Cpu): (r: set<Cpu>)
    ensures forall x: Cpu :: x in r <==> x < n && x != c
  {
    if n == 0 then {} else AllBut(n - 1, c) + (if n - 1 == c then {} else {n - 1})
  }

  function Step(s: State, a: Action): State
    requires Enabled(s, a)
  {
    match a
    case Change(p) => s.(version := s.version[p := s.Version(p) + 1])
    case Fill(c) => s.(tlb := s.tlb[c := s.tlb[c] + {s.Version(s.active[c])}])
    case Switch(c, p) => s.(active := s.active[c := p], tlb := s.tlb[c := {}])
    case TakeLock(p) => s.(phase := Locked(p, s.Version(p)))
    case Prepare =>
      s.(phase := Prepared(s.phase.target, s.phase.since), remaining := |s.active| - 1, pd := s.phase.target)
    case Send(c) =>
      s.(phase := Waiting(s.phase.target, s.phase.since, c), pending := AllBut(|s.active|, c),
         acks := seq(|s.acks|, i => 0))
    case Flush(c) =>
      s.(pending := s.pending - {c}, handling := s.handling + {c},
          tlb := if s.active[c] == s.pd then s.tlb[c := {}] else s.tlb)
    case Decrement(c) =>
      s.(handling := s.handling - {c}, remaining := s.remaining - 1, acks := s.acks[c := s.acks[c] + 1])
    case DropLock => s.(phase := Unlocked)
  }

  // A state that a run of the system from a given start can be in.
  ghost predicate Run(states: seq<State>, acts: seq<Action>) {
    && |states| == |acts| + 1 && Initial(states[0])
    && forall i :: 0 <= i < |acts| ==> Enabled(states[i], acts[i]) && states[i + 1] == Step(states[i], acts[i])
  }

  // ---------------------------------------------------------------------------------------
  // The invariant.

  // CPU c holds no translation of p older than version v.
  ghost predicate Fresh(s: State, c: Cpu, p: Pd, v: nat) {
    c < |s.active| && c < |s.tlb| && s.active[c] == p ==> forall x :: x in s.tlb[c] ==> x >= v
  }

  // Every CPU but the sender is on its way to acknowledge, once.
  ghost predicate Accounted(s: State, c: Cpu) {
    s.phase.Waiting? && c < |s.active| && s.Shape() ==>
      && s.acks[c] == (if c == s.phase.self || c in s.pending || c in s.handling then 0 else 1)
      && (c == s.phase.self ==> c !in s.pending && c !in s.handling)
      && (c in s.pending ==> c !in s.handling)
      && (c !in s.pending ==> Fresh(s, c, s.phase.target, s.phase.since))
  }

  // Who has to acknowledge.
  ghost predicate Senders(s: State) {
    && s.Shape()
    && (forall c :: c in s.pending || c in s.handling ==> c < |s.active|)
    && (!s.phase.Waiting? ==> s.pending == {} && s.handling == {})
  }

  // What the counter and the holder of the lock know of it.
  ghost predicate Counts(s: State) {
    && (s.phase != Unlocked ==> s.Version(s.phase.target) >= s.phase.since)
    && (s.phase.Prepared? ==> s.remaining == |s.active| - 1 && s.pd == s.phase.target)
    && (s.phase.Waiting? ==>
          s.pd == s.phase.target && s.phase.self < |s.active| && s.remaining == |s.pending| + |s.handling|)
  }

  ghost predicate Inv(s: State) {
    Senders(s) && Counts(s) && forall c {:trigger Accounted(s, c)} :: Accounted(s, c)
  }

  lemma {:induction false} AllButSize(n: nat, c: Cpu)
    ensures |AllBut(n, c)| == if c < n then n - 1 else n
  {
    hide AllBut;
    AllButStep(n, c);
    if n > 0 {
      AllButSize(n - 1, c);
      OneMore(AllBut(n - 1, c), n - 1);
    }
  }

  lemma AllButStep(n: nat, c: Cpu)
    ensures n == 0 ==> AllBut(n, c) == {}
    ensures n > 0 ==> AllBut(n, c) == if n - 1 == c then AllBut(n - 1, c) else AllBut(n - 1, c) + {n - 1}
  {
  }

  lemma OneMore(s: set<Cpu>, x: Cpu)
    requires x !in s
    ensures |s + {x}| == |s| + 1
  {
  }

  lemma StepAccounted(s: State, a: Action, c: Cpu)
    requires Inv(s) && Enabled(s, a)
    ensures Accounted(Step(s, a), c)
  {
    assert Accounted(s, c);
  }

  // The counter moves with the sets.
  lemma StepCount(s: State, a: Action)
    requires Inv(s) && Enabled(s, a) && Step(s, a).phase.Waiting?
    ensures Step(s, a).remaining == |Step(s, a).pending| + |Step(s, a).handling|
  {
    hide Fresh;
    match a {
      case Send(c) => AllButSize(|s.active|, c);
      case Flush(c) => assert Accounted(s, c);
      case Decrement(c) => assert Accounted(s, c);
      case _ =>
    }
  }

  lemma StepSenders(s: State, a: Action)
    requires Inv(s) && Enabled(s, a)
    ensures Senders(Step(s, a))
  {
    hide Accounted;
  }

  lemma StepCounts(s: State, a: Action)
    requires Inv(s) && Enabled(s, a)
    ensures Counts(Step(s, a))
  {
    hide Accounted, AllBut;
    if Step(s, a).phase.Waiting? { StepCount(s, a); }
  }

  lemma StepInv(s: State, a: Action)
    requires Inv(s) && Enabled(s, a)
    ensures Inv(Step(s, a))
  {
    hide Accounted, Senders, Counts, Step, Enabled;
    StepSenders(s, a);
    StepCounts(s, a);
    forall c ensures Accounted(Step(s, a), c) { StepAccounted(s, a, c); }
  }

  lemma {:induction false} Invariant(states: seq<State>, acts: seq<Action>, i: nat)
    requires Run(states, acts) && i < |states|
    ensures Inv(states[i]) && |states[i].active| == |states[0].active|
  {
    if i > 0 {
      Invariant(states, acts, i - 1);
      StepInv(states[i - 1], acts[i - 1]);
    }
  }

  /** When the wait loop ends every other CPU has acknowledged exactly once, and no CPU holds a
      translation of the page directory that is older than the change. */
  lemma ShootdownComplete(states: seq<State>, acts: seq<Action>, i: nat)
    requires Run(states, acts) && i < |states| && states[i].phase.Waiting? && states[i].remaining <= 0
    ensures var s := states[i];
            && (forall c :: 0 <= c < |s.acks| ==> s.acks[c] == if c == s.phase.self then 0 else 1)
            && (forall c: Cpu :: Fresh(s, c, s.phase.target, s.phase.since))
  {
    Invariant(states, acts, i);
    var s := states[i];
    assert |s.pending| == 0 && |s.handling| == 0;
    forall c | 0 <= c < |s.acks| ensures s.acks[c] == if c == s.phase.self then 0 else 1 { assert Accounted(s, c); }
    forall c: Cpu ensures Fresh(s, c, s.phase.target, s.phase.since) { assert Accounted(s, c); }
  }

  /** The counter never runs below zero, so the wait cannot end early and the next flush starts
      from a clean state. */
  lemma CounterIsExact(states: seq<State>, acts: seq<Action>, i: nat)
    requires Run(states, acts) && i < |states| && states[i].phase.Waiting?
    ensures states[i].remaining >= 0
    ensures states[i].remaining > 0 <==> states[i].pending != {} || states[i].handling != {}
  {
    Invariant(states, acts, i);
  }

  // ---------------------------------------------------------------------------------------
  // What the states say about the history of a run.

  predicate IsTake(a: Action) { a.TakeLock? }
  predicate IsPrepare(a: Action) { a.Prepare? }
  predicate IsSend(a: Action) { a.Send? }
  predicate IsDrop(a: Action) { a.DropLock? }

  // Among the first i steps one was `on`, and none after it `off`.
  ghost predicate Set(acts: seq<Action>, i: nat, on: Action -> bool, off: Action -> bool) {
    exists k :: 0 <= k < i && Last(acts, k, i, on, off)
  }

  ghost predicate Last(acts: seq<Action>, k: int, i: nat, on: Action -> bool, off: Action -> bool) {
    0 <= k < |acts| && on(acts[k]) && forall j :: k < j < i && j < |acts| ==> !off(acts[j])
  }

  lemma SetStep(acts: seq<Action>, i: nat, on: Action -> bool, off: Action -> bool)
    requires i < |acts|
    ensures Set(acts, i + 1, on, off) <==> on(acts[i]) || (Set(acts, i, on, off) && !off(acts[i]))
  {
    if Set(acts, i + 1, on, off) {
      var k :| 0 <= k < i + 1 && Last(acts, k, i + 1, on, off);
      assert k < i ==> Last(acts, k, i, on, off);
    }
    if on(acts[i]) {
      assert Last(acts, i, i + 1, on, off);
    } else if Set(acts, i, on, off) && !off(acts[i]) {
      var k :| 0 <= k < i && Last(acts, k, i, on, off);
      assert Last(acts, k, i + 1, on, off);
    }
  }

  lemma PhaseStep(s: State, a: Action)
    requires Enabled(s, a)
    ensures var n := Step(s, a);
      && (n.phase != Unlocked <==> IsTake(a) || (s.phase != Unlocked && !IsDrop(a)))
      && (n.phase.Prepared? <==> IsPrepare(a) || (s.phase.Prepared? && !IsSend(a)))
      && (n.phase.Waiting? <==> IsSend(a) || (s.phase.Waiting? && !IsDrop(a)))
  {
  }

  /** The lock is held from TakeLock to DropLock; the counter is set from Prepare to Send; the interrupts
      are out from Send to DropLock. */
  lemma {:induction false} PhaseHistory(states: seq<State>, acts: seq<Action>, i: nat)
    requires Run(states, acts) && i < |states|
    ensures states[i].phase != Unlocked <==> Set(acts, i, IsTake, IsDrop)
    ensures states[i].phase.Prepared? <==> Set(acts, i, IsPrepare, IsSend)
    ensures states[i].phase.Waiting? <==> Set(acts, i, IsSend, IsDrop)
  {
    hide Step, Enabled, Set, IsTake, IsDrop, IsPrepare, IsSend;
    if i > 0 {
      PhaseHistory(states, acts, i - 1);
      PhaseStep(states[i - 1], acts[i - 1]);
      SetStep(acts, i - 1, IsTake, IsDrop);
      SetStep(acts, i - 1, IsPrepare, IsSend);
      SetStep(acts, i - 1, IsSend, IsDrop);
    } else {
      NotYet(acts, IsTake, IsDrop);
      NotYet(acts, IsPrepare, IsSend);
      NotYet(acts, IsSend, IsDrop);
    }
  }

  lemma NotYet(acts: seq<Action>, on: Action -> bool, off: Action -> bool)
    ensures !Set(acts, 0, on, off)
  {
  }

  /** How often page directory p was changed in the first i steps. */
  ghost function Changes(acts: seq<Action>, i: nat, p: Pd): nat
    requires i <= |acts|
  {
    if i == 0 then 0 else Changes(acts, i - 1, p) + if acts[i - 1] == Change(p) then 1 else 0
  }

  lemma VersionStep(s: State, a: Action, p: Pd)
    requires Enabled(s, a)
    ensures Step(s, a).Version(p) == s.Version(p) + if a == Change(p) then 1 else 0
  {
  }

  /** A version is the number of changes. */
  lemma {:induction false} VersionIsChanges(states: seq<State>, acts: seq<Action>, i: nat, p: Pd)
    requires Run(states, acts) && i < |states|
    ensures states[i].Version(p) == states[0].Version(p) + Changes(acts, i, p)
  {
    hide Step, Enabled;
    if i > 0 {
      VersionIsChanges(states, acts, i - 1, p);
      VersionStep(states[i - 1], acts[i - 1], p);
    }
  }

  // Step k caches on CPU c a translation of version v.
  ghost predicate Cached(states: seq<State>, acts: seq<Action>, k: int, c: Cpu, v: nat) {
    && 0 <= k < |acts| && k < |states| && acts[k] == Fill(c) && c < |states[k].active|
    && v == states[k].Version(states[k].active[c])
  }

  // Step j empties the TLB of CPU c.
  ghost predicate Emptied(states: seq<State>, acts: seq<Action>, j: int, c: Cpu) {
    && 0 <= j < |acts| && j < |states| && c < |states[j].active|
    && ((acts[j].Switch? && acts[j].c == c) || (acts[j] == Flush(c) && states[j].active[c] == states[j].pd))
  }

  ghost predicate Lasting(states: seq<State>, acts: seq<Action>, k: int, i: nat, c: Cpu, v: nat) {
    Cached(states, acts, k, c, v) && forall j :: k < j < i ==> !Emptied(states, acts, j, c)
  }

  ghost predicate Holds(states: seq<State>, acts: seq<Action>, i: nat, c: Cpu, v: nat) {
    exists k :: 0 <= k < i && Lasting(states, acts, k, i, c, v)
  }

  lemma LastingStep(states: seq<State>, acts: seq<Action>, i: nat, c: Cpu, v: nat)
    ensures Holds(states, acts, i + 1, c, v)
       <==> Cached(states, acts, i, c, v) || (Holds(states, acts, i, c, v) && !Emptied(states, acts, i, c))
  {
    if Holds(states, acts, i + 1, c, v) {
      var k :| 0 <= k < i + 1 && Lasting(states, acts, k, i + 1, c, v);
      assert k < i ==> Lasting(states, acts, k, i, c, v);
    }
    if Cached(states, acts, i, c, v) {
      assert Lasting(states, acts, i, i + 1, c, v);
    } else if Holds(states, acts, i, c, v) && !Emptied(states, acts, i, c) {
      var k :| 0 <= k < i && Lasting(states, acts, k, i, c, v);
      assert Lasting(states, acts, k, i + 1, c, v);
    }
  }

  lemma TlbStep(s: State, a: Action, c: Cpu, v: nat)
    requires Enabled(s, a) && c < |s.active|
    ensures var n := Step(s, a);
      && |n.active| == |s.active| && n.Shape()
      && n.active[c] == (if a.Switch? && a.c == c then a.p else s.active[c])
      && (v in n.tlb[c] <==>
            || (a == Fill(c) && v == s.Version(s.active[c]))
            || (v in s.tlb[c] && !(a.Switch? && a.c == c) && !(a == Flush(c) && s.active[c] == s.pd)))
  {
  }

  /** A TLB holds exactly what was cached in it since it was last emptied, by a switch or by a request to
      flush the page directory that is active there. */
  lemma {:induction false} TlbHistory(states: seq<State>, acts: seq<Action>, i: nat, c: Cpu, v: nat)
    requires Run(states, acts) && i < |states| && c < |states[0].active|
    ensures |states[i].active| == |states[i].tlb| == |states[0].active|
    ensures v in states[i].tlb[c] <==> Holds(states, acts, i, c, v)
  {
    hide Step, Enabled, Lasting;
    if i > 0 {
      TlbHistory(states, acts, i - 1, c, v);
      assert Enabled(states[i - 1], acts[i - 1]) && states[i] == Step(states[i - 1], acts[i - 1]);
      TlbStep(states[i - 1], acts[i - 1], c, v);
      LastingStep(states, acts, i - 1, c, v);
    }
  }

  // Step k takes the lock for the flush that is still going on after i steps.
  ghost predicate Began(states: seq<State>, acts: seq<Action>, k: int, i: nat) {
    && 0 <= k < i && i < |states| && Last(acts, k, i, IsTake, IsTake) && states[i].phase != Unlocked
    && states[i].phase.target == acts[k].p && states[i].phase.since == states[k].Version(acts[k].p)
  }

  lemma {:induction false} LockOwner(states: seq<State>, acts: seq<Action>, i: nat) returns (k: nat)
    requires Run(states, acts) && i < |states| && states[i].phase != Unlocked
    ensures Began(states, acts, k, i)
  {
    var s, a := states[i - 1], acts[i - 1];
    assert Enabled(s, a) && states[i] == Step(s, a);
    if IsTake(a) {
      k := i - 1;
    } else {
      k := LockOwner(states, acts, i - 1);
    }
  }

  /** When a flush of page directory p ends, no CPU holds a translation of p from before the changes
      that had been made when the flush began. */
  lemma NoStaleTranslation(states: seq<State>, acts: seq<Action>, i: nat, c: Cpu) returns (k: nat)
    requires Run(states, acts) && i < |acts| && IsDrop(acts[i]) && c < |states[i].active|
    ensures Began(states, acts, k, i) && c < |states[i].tlb|
    ensures states[i].active[c] == acts[k].p ==>
      forall v :: v in states[i].tlb[c] ==> v >= states[0].Version(acts[k].p) + Changes(acts, k, acts[k].p)
  {
    assert Enabled(states[i], acts[i]);
    k := LockOwner(states, acts, i);
    ShootdownComplete(states, acts, i);
    assert Fresh(states[i], c, states[i].phase.target, states[i].phase.since);
    VersionIsChanges(states, acts, k, acts[k].p);
  }

  /** A flush never gets stuck: in every run its next step can be taken, until the lock is released, as
      soon as the thread runs somewhere else than under the target. */
  lemma FlushGoesOn(states: seq<State>, acts: seq<Action>, i: nat)
    requires Run(states, acts) && i < |states|
    ensures var s := states[i];
      match s.phase
      case Unlocked => forall p :: Enabled(s, TakeLock(p))
      case Locked(_, _) => Enabled(s, Prepare)
      case Prepared(p, _) => forall c: Cpu :: c < |s.active| && s.active[c] != p ==> Enabled(s, Send(c))
      case Waiting(_, _, _) => Enabled(s, DropLock) || exists c :: Enabled(s, Flush(c)) || Enabled(s, Decrement(c))
  {
    Invariant(states, acts, i);
    var s := states[i];
    if s.phase.Waiting? && s.remaining > 0 {
      if s.pending != {} {
        var c :| c in s.pending;
        assert Enabled(s, Flush(c));
      } else {
        var c :| c in s.handling;
        assert Enabled(s, Decrement(c));
      }
    }
  }

  ghost function Owed(s: State): nat { 2 * |s.pending| + |s.handling| }

  /** And it ends: each step of a handler leaves one step less to take, and no other step adds one. */
  lemma FlushEnds(states: seq<State>, acts: seq<Action>, i: nat)
    requires Run(states, acts) && i < |acts| && states[i].phase.Waiting?
    ensures var a := acts[i];
      Owed(states[i + 1]) == Owed(states[i]) - if a.Flush? || a.Decrement? then 1 else 0
    ensures Owed(states[i]) == 0 <==> Enabled(states[i], DropLock)
  {
    Invariant(states, acts, i);
    var s, a := states[i], acts[i];
    assert Enabled(s, a) && states[i + 1] == Step(s, a);
    if a.Flush? { assert Accounted(s, a.c); }
  }
}
