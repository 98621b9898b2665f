/** The blocking queue of src/lib/kernel/queue.c and the pipe of src/filesys/pipe.c as one step
    system: a step is one stay in the monitor. A queue has both ends open for good; a pipe never
    discards. */
module Channel {
  import opened Sequences
  import opened RingBuffer

  type Tid = nat

  // Threads asleep on a condition variable, and threads signalled that have not yet run.
  datatype Waiters = Waiters(asleep: seq<Tid>, woken: set<Tid>)
  {
    /** cond_signal. */
    function Signal(): Waiters {
      if asleep == [] then this else Waiters(asleep[1..], woken + {asleep[0]})
    }

    ghost predicate Ok() {
      Distinct(asleep) && forall t :: t in asleep ==> t !in woken
    }

    ghost predicate Has(t: Tid) { t in asleep || t in woken }
  }

  // What became of an item that was offered: it was the k-th to be accepted, thread t waits with it,
  // or it was dropped.
  datatype Fate = Accepted(k: nat) | Carried(t: Tid) | Dropped

  datatype Channel<T> = Channel(
    ring: Ring<T>, discard: bool, readOpen: bool, writeOpen: bool,
    shutRead: bool, shutWrite: bool,            // an end is closed, its signal is still to come
    consumers: Waiters, producers: Waiters,
    carried: map<Tid, nat>,                     // which item each waiting producer brings
    accepted: seq<T>, removed: seq<T>,          // history
    offered: seq<T>, fate: seq<Fate>,           // every item offered, and its fate
    from: seq<nat>)                             // the number of each accepted item

  /** queue_init and pipe_create: the buffer has one spot more than the true capacity. */
  function New<T>(buffer: seq<T>, discard: bool): Channel<T> {
    Channel(Ring(buffer, 0, 0), discard, true, true, false, false, Waiters([], {}), Waiters([], {}), map[],
            [], [], [], [], [])
  }

  // From the loop test of the dequeue functions on.
  function TryDequeue<T>(c: Channel<T>, t: Tid): Channel<T>
    requires c.ring.Ok()
  {
    if Empty(c.ring) then
      if !c.writeOpen then c else c.(consumers := c.consumers.(asleep := c.consumers.asleep + [t]))
    else
      var (ring, item) := Pop(c.ring);
      c.(ring := ring, removed := c.removed + [item], producers := c.producers.Signal())
  }

  // From the loop test of the enqueue functions on, with item number n.
  function TryEnqueue<T>(c: Channel<T>, t: Tid, n: nat): Channel<T>
    requires c.ring.Ok() && n < |c.offered| == |c.fate|
  {
    if Full(c.ring) then
      if !c.readOpen then c.(fate := c.fate[n := Dropped])
      else
        c.(producers := c.producers.(asleep := c.producers.asleep + [t]), carried := c.carried[t := n],
           fate := c.fate[n := Carried(t)])
    else
      c.(ring := Push(c.ring, c.offered[n]), accepted := c.accepted + [c.offered[n]],
         consumers := c.consumers.Signal(), fate := c.fate[n := Accepted(|c.accepted|)], from := c.from + [n])
  }

  // A call of the enqueue functions: the item gets the next number.
  function Offer<T>(c: Channel<T>, item: T): Channel<T> {
    c.(offered := c.offered + [item], fate := c.fate + [Dropped])
  }

  // A woken thread runs.
  function Runs(w: Waiters, t: Tid): Waiters { w.(woken := w.woken - {t}) }

  datatype Action<T> =
    | Dequeue | DequeueAgain | Enqueue(item: T) | EnqueueAgain
    | CloseRead | SignalRead | CloseWrite | SignalWrite     // pipe_close, up to the lock and after

  ghost predicate Enabled<T>(c: Channel<T>, a: Action<T>, t: Tid) {
    && c.ring.Ok() && |c.offered| == |c.fate|
    && match a
       case Dequeue => !c.consumers.Has(t) && !c.producers.Has(t)
       case DequeueAgain => t in c.consumers.woken
       case Enqueue(_) => !c.consumers.Has(t) && !c.producers.Has(t)
       case EnqueueAgain => t in c.producers.woken && t in c.carried && c.carried[t] < |c.offered|
       case CloseRead => c.readOpen
       case SignalRead => c.shutRead
       case CloseWrite => c.writeOpen
       case SignalWrite => c.shutWrite
  }

  function Step<T>(c: Channel<T>, a: Action<T>, t: Tid): Channel<T>
    requires Enabled(c, a, t)
  {
    match a
    case Dequeue => TryDequeue(c, t)
    case DequeueAgain => TryDequeue(c.(consumers := Runs(c.consumers, t)), t)
    case Enqueue(item) =>
      if c.discard && Full(c.ring) then Offer(c, item) else TryEnqueue(Offer(c, item), t, |c.offered|)
    case EnqueueAgain =>
      TryEnqueue(c.(producers := Runs(c.producers, t), carried := c.carried - {t}), t, c.carried[t])
    case CloseRead => c.(readOpen := false, shutRead := true)
    case SignalRead => c.(shutRead := false, producers := c.producers.Signal())
    case CloseWrite => c.(writeOpen := false, shutWrite := true)
    case SignalWrite => c.(shutWrite := false, consumers := c.consumers.Signal())
  }

  ghost predicate StepAt<T>(states: seq<Channel<T>>, acts: seq<(Action<T>, Tid)>, i: int)
    requires 0 <= i < |acts| < |states|
  {
    Enabled(states[i], acts[i].0, acts[i].1) && states[i + 1] == Step(states[i], acts[i].0, acts[i].1)
  }

  ghost predicate Run<T>(states: seq<Channel<T>>, acts: seq<(Action<T>, Tid)>) {
    && |states| == |acts| + 1 && |states[0].ring.buffer| >= 1
    && states[0] == New(states[0].ring.buffer, states[0].discard)
    && forall i {:trigger StepAt(states, acts, i)} :: 0 <= i < |acts| ==> StepAt(states, acts, i)
  }

  // ---------------------------------------------------------------------------------------
  // The invariant.

  // While somebody sleeps, everything there is to wake up for has somebody on the way.
  ghost predicate Attended(w: Waiters, available: int) {
    w.Ok() && (w.asleep != [] ==> available <= |w.woken|)
  }

  ghost function Room<T>(c: Channel<T>): int {
    |c.ring.buffer| - 1 - Count(c.ring)
  }

  // The ring holds what was accepted and not yet removed, and nobody sleeps unattended.
  ghost predicate Flow<T>(c: Channel<T>) {
    && c.ring.Ok() && c.accepted == c.removed + Items(c.ring)
    && Attended(c.consumers, Count(c.ring)) && Attended(c.producers, Room(c))
  }

  // Item number n and the fate recorded for it.
  ghost predicate FateOk<T>(c: Channel<T>, n: int) {
    0 <= n < |c.fate| &&
    match c.fate[n]
    case Accepted(k) => k < |c.from| && c.from[k] == n
    case Carried(t) => t in c.carried && c.carried[t] == n
    case Dropped => true
  }

  ghost predicate AcceptedOk<T>(c: Channel<T>, k: int) {
    && 0 <= k < |c.from| && k < |c.accepted| && c.from[k] < |c.fate| && c.from[k] < |c.offered|
    && c.fate[c.from[k]] == Accepted(k) && c.accepted[k] == c.offered[c.from[k]]
  }

  ghost predicate CarriedOk<T>(c: Channel<T>, t: Tid) {
    t in c.carried && c.carried[t] < |c.fate| && c.fate[c.carried[t]] == Carried(t)
  }

  // The account of all items but number x.
  ghost predicate LedgerBut<T>(c: Channel<T>, x: int) {
    && |c.fate| == |c.offered| && |c.from| == |c.accepted|
    && (forall n {:trigger FateOk(c, n)} :: 0 <= n < |c.fate| && n != x ==> FateOk(c, n))
    && (forall k {:trigger AcceptedOk(c, k)} :: 0 <= k < |c.from| ==> AcceptedOk(c, k) && c.from[k] != x)
    && (forall t {:trigger CarriedOk(c, t)} :: t in c.carried ==> CarriedOk(c, t) && c.carried[t] != x)
    && (forall t :: t in c.carried <==> c.producers.Has(t))
  }

  /** Every item that was offered has exactly one fate: it was accepted, once, and `from` says as
      which; or exactly one waiting producer brings it; or it was dropped.  Every accepted item was
      offered, and only waiting producers bring items. */
  ghost predicate Ledger<T>(c: Channel<T>) {
    LedgerBut(c, -1)
  }

  ghost predicate Inv<T>(c: Channel<T>) {
    Flow(c) && Ledger(c)
  }

  lemma SignalAttends(w: Waiters, available: int)
    requires Attended(w, available)
    ensures Attended(w.Signal(), available) && Attended(w.Signal(), available + 1)
    ensures forall t :: w.Signal().Has(t) <==> w.Has(t)
  {
    if w.asleep != [] {
      assert w.asleep == [w.asleep[0]] + w.asleep[1..];
      assert forall i :: 0 <= i < |w.asleep| - 1 ==> w.asleep[1..][i] == w.asleep[i + 1];
    }
  }

  lemma SleepAttends(w: Waiters, t: Tid)
    requires w.Ok() && !w.Has(t)
    ensures Attended(w.(asleep := w.asleep + [t]), 0)
    ensures forall u :: w.(asleep := w.asleep + [t]).Has(u) <==> w.Has(u) || u == t
  {
  }

  // A woken thread that runs is no longer counted.
  lemma RunAttends(w: Waiters, t: Tid, available: int)
    requires Attended(w, available) && t in w.woken
    ensures var v := w.(woken := w.woken - {t}); !v.Has(t) && Attended(v, available - 1)
  {
  }

  lemma DequeueFlow<T>(c: Channel<T>, t: Tid)
    requires c.ring.Ok() && c.accepted == c.removed + Items(c.ring) && Attended(c.producers, Room(c))
    requires Attended(c.consumers, Count(c.ring) - 1) && !c.consumers.Has(t)
    ensures Flow(TryDequeue(c, t)) && |TryDequeue(c, t).ring.buffer| == |c.ring.buffer|
  {
    hide Items, Count, Push;
    EmptyIsNone(c.ring);
    if Empty(c.ring) {
      SleepAttends(c.consumers, t);
    } else {
      PopTakesFirst(c.ring);
      var r := Pop(c.ring).0;
      assert |Items(r)| == |Items(c.ring)| - 1;
      SignalAttends(c.producers, Room(c));
      assert c.removed + Items(c.ring) == (c.removed + [Pop(c.ring).1]) + Items(r);
    }
  }

  lemma EnqueueFlow<T>(c: Channel<T>, t: Tid, n: nat)
    requires c.ring.Ok() && c.accepted == c.removed + Items(c.ring) && Attended(c.consumers, Count(c.ring))
    requires Attended(c.producers, Room(c) - 1) && !c.producers.Has(t) && n < |c.offered| == |c.fate|
    ensures Flow(TryEnqueue(c, t, n)) && |TryEnqueue(c, t, n).ring.buffer| == |c.ring.buffer|
  {
    hide Items, Count, Pop;
    EmptyIsNone(c.ring);
    if Full(c.ring) {
      SleepAttends(c.producers, t);
    } else {
      var item := c.offered[n];
      PushAppends(c.ring, item);
      var r := Push(c.ring, item);
      assert |Items(r)| == |Items(c.ring)| + 1;
      SignalAttends(c.consumers, Count(c.ring));
      assert c.removed + Items(c.ring) + [item] == c.removed + Items(r);
    }
  }

  lemma DequeueAgainFlow<T>(c: Channel<T>, t: Tid)
    requires Flow(c) && t in c.consumers.woken
    ensures var d := TryDequeue(c.(consumers := Runs(c.consumers, t)), t);
      Flow(d) && |d.ring.buffer| == |c.ring.buffer|
  {
    hide TryDequeue, Items, Count, Attended;
    RunAttends(c.consumers, t, Count(c.ring));
    DequeueFlow(c.(consumers := Runs(c.consumers, t)), t);
  }

  lemma OfferFlow<T>(c: Channel<T>, t: Tid, item: T)
    requires Flow(c) && !c.producers.Has(t) && |c.offered| == |c.fate|
    ensures Flow(Offer(c, item))
    ensures var d := TryEnqueue(Offer(c, item), t, |c.offered|); Flow(d) && |d.ring.buffer| == |c.ring.buffer|
  {
    hide TryEnqueue, Items, Count, Attended;
    AttendedLess(c.producers, Room(c));
    EnqueueFlow(Offer(c, item), t, |c.offered|);
  }

  lemma EnqueueAgainFlow<T>(c: Channel<T>, t: Tid)
    requires Flow(c) && t in c.producers.woken && t in c.carried && c.carried[t] < |c.offered| == |c.fate|
    ensures var d := TryEnqueue(c.(producers := Runs(c.producers, t), carried := c.carried - {t}), t, c.carried[t]);
      Flow(d) && |d.ring.buffer| == |c.ring.buffer|
  {
    hide TryEnqueue, Items, Count, Attended;
    RunAttends(c.producers, t, Room(c));
    EnqueueFlow(c.(producers := Runs(c.producers, t), carried := c.carried - {t}), t, c.carried[t]);
  }

  lemma SignalFlow<T>(c: Channel<T>, d: Channel<T>)
    requires Flow(c) && d.ring == c.ring && d.accepted == c.accepted && d.removed == c.removed
    requires d.consumers == c.consumers || d.consumers == c.consumers.Signal()
    requires d.producers == c.producers || d.producers == c.producers.Signal()
    ensures Flow(d)
  {
    hide Items, Count, Attended;
    SignalAttends(c.consumers, Count(c.ring));
    SignalAttends(c.producers, Room(c));
  }

  lemma FlowStep<T>(c: Channel<T>, a: Action<T>, t: Tid)
    requires Flow(c) && Enabled(c, a, t)
    ensures Flow(Step(c, a, t)) && |Step(c, a, t).ring.buffer| == |c.ring.buffer|
  {
    hide TryDequeue, TryEnqueue, Items, Count, Attended, Full;
    match a {
      case Dequeue =>
        AttendedLess(c.consumers, Count(c.ring));
        DequeueFlow(c, t);
      case DequeueAgain => DequeueAgainFlow(c, t);
      case Enqueue(item) => OfferFlow(c, t, item);
      case EnqueueAgain => EnqueueAgainFlow(c, t);
      case _ => SignalFlow(c, Step(c, a, t));
    }
  }

  lemma AttendedLess(w: Waiters, available: int)
    requires Attended(w, available)
    ensures Attended(w, available - 1)
  {
  }

  // ---------------------------------------------------------------------------------------
  // The account of the items.

  // The same items, and the same threads wait.
  lemma LedgerSame<T>(c: Channel<T>, d: Channel<T>)
    requires Ledger(c) && d.offered == c.offered && d.fate == c.fate && d.from == c.from && d.accepted == c.accepted
    requires d.carried == c.carried && forall t :: d.producers.Has(t) <==> c.producers.Has(t)
    ensures Ledger(d)
  {
    forall n | 0 <= n < |d.fate| ensures FateOk(d, n) { assert FateOk(c, n); }
    forall k | 0 <= k < |d.from| ensures AcceptedOk(d, k) && d.from[k] != -1 { assert AcceptedOk(c, k); }
    forall t | t in d.carried ensures CarriedOk(d, t) && d.carried[t] != -1 { assert CarriedOk(c, t); }
  }

  lemma SignalHas(w: Waiters)
    ensures forall t :: w.Signal().Has(t) <==> w.Has(t)
  {
    if w.asleep != [] { assert w.asleep == [w.asleep[0]] + w.asleep[1..]; }
  }

  // The item that was just offered.
  lemma OfferLedger<T>(c: Channel<T>, item: T)
    requires Ledger(c)
    ensures LedgerBut(Offer(c, item), |c.offered|) && Ledger(Offer(c, item))
  {
    var d := Offer(c, item);
    forall n | 0 <= n < |d.fate| ensures FateOk(d, n) { if n < |c.fate| { assert FateOk(c, n); } }
    forall k | 0 <= k < |d.from| ensures AcceptedOk(d, k) && d.from[k] < |c.offered| { assert AcceptedOk(c, k); }
    forall t | t in d.carried ensures CarriedOk(d, t) && d.carried[t] < |c.offered| { assert CarriedOk(c, t); }
  }

  // The item that a woken producer brings again.
  lemma AgainLedger<T>(c: Channel<T>, t: Tid)
    requires Ledger(c) && c.producers.Ok() && t in c.producers.woken && t in c.carried
    ensures LedgerBut(c.(producers := Runs(c.producers, t), carried := c.carried - {t}), c.carried[t])
    ensures !Runs(c.producers, t).Has(t)
  {
    var d := c.(producers := Runs(c.producers, t), carried := c.carried - {t});
    assert CarriedOk(c, t);
    forall n | 0 <= n < |d.fate| && n != c.carried[t] ensures FateOk(d, n) { assert FateOk(c, n); }
    forall k | 0 <= k < |d.from| ensures AcceptedOk(d, k) && d.from[k] != c.carried[t] { assert AcceptedOk(c, k); }
    forall u | u in d.carried ensures CarriedOk(d, u) && d.carried[u] != c.carried[t] { assert CarriedOk(c, u); }
  }

  // The three ends of an attempt with item number n.
  lemma DropLedger<T>(c: Channel<T>, n: nat)
    requires LedgerBut(c, n) && n < |c.fate|
    ensures Ledger(c.(fate := c.fate[n := Dropped]))
  {
    var d := c.(fate := c.fate[n := Dropped]);
    forall m | 0 <= m < |d.fate| ensures FateOk(d, m) { if m != n { assert FateOk(c, m); } }
    forall k | 0 <= k < |d.from| ensures AcceptedOk(d, k) && d.from[k] != -1 { assert AcceptedOk(c, k); }
    forall t | t in d.carried ensures CarriedOk(d, t) && d.carried[t] != -1 { assert CarriedOk(c, t); }
  }

  lemma WaitLedger<T>(c: Channel<T>, t: Tid, n: nat)
    requires LedgerBut(c, n) && n < |c.fate| && !c.producers.Has(t)
    ensures var asleep := c.producers.(asleep := c.producers.asleep + [t]);
      Ledger(c.(producers := asleep, carried := c.carried[t := n], fate := c.fate[n := Carried(t)]))
  {
    var asleep := c.producers.(asleep := c.producers.asleep + [t]);
    var d := c.(producers := asleep, carried := c.carried[t := n], fate := c.fate[n := Carried(t)]);
    forall m | 0 <= m < |d.fate| ensures FateOk(d, m) { if m != n { assert FateOk(c, m); } }
    forall k | 0 <= k < |d.from| ensures AcceptedOk(d, k) && d.from[k] != -1 { assert AcceptedOk(c, k); }
    forall u | u in d.carried ensures CarriedOk(d, u) && d.carried[u] != -1 { if u != t { assert CarriedOk(c, u); } }
  }

  lemma TakeLedger<T>(c: Channel<T>, n: nat, ring: Ring<T>, consumers: Waiters)
    requires LedgerBut(c, n) && n < |c.fate| && |c.fate| == |c.offered|
    ensures Ledger(c.(ring := ring, accepted := c.accepted + [c.offered[n]], consumers := consumers,
                      fate := c.fate[n := Accepted(|c.accepted|)], from := c.from + [n]))
  {
    var d := c.(ring := ring, accepted := c.accepted + [c.offered[n]], consumers := consumers,
                fate := c.fate[n := Accepted(|c.accepted|)], from := c.from + [n]);
    forall m | 0 <= m < |d.fate| ensures FateOk(d, m) { if m != n { assert FateOk(c, m); } }
    forall k | 0 <= k < |d.from| ensures AcceptedOk(d, k) && d.from[k] != -1 {
      if k < |c.from| { assert AcceptedOk(c, k); }
    }
    forall u | u in d.carried ensures CarriedOk(d, u) && d.carried[u] != -1 { assert CarriedOk(c, u); }
  }

  lemma EnqueueLedger<T>(c: Channel<T>, t: Tid, n: nat)
    requires LedgerBut(c, n) && c.ring.Ok() && n < |c.offered| == |c.fate| && !c.producers.Has(t)
    ensures Ledger(TryEnqueue(c, t, n))
  {
    hide LedgerBut, Ledger;
    if !Full(c.ring) {
      TakeLedger(c, n, Push(c.ring, c.offered[n]), c.consumers.Signal());
    } else if c.readOpen {
      WaitLedger(c, t, n);
    } else {
      DropLedger(c, n);
    }
  }

  lemma DequeueLedger<T>(c: Channel<T>, t: Tid)
    requires Ledger(c) && c.ring.Ok()
    ensures Ledger(TryDequeue(c, t))
  {
    hide LedgerBut, Ledger;
    SignalHas(c.producers);
    LedgerSame(c, TryDequeue(c, t));
  }

  lemma LedgerStep<T>(c: Channel<T>, a: Action<T>, t: Tid)
    requires Ledger(c) && c.producers.Ok() && Enabled(c, a, t)
    ensures Ledger(Step(c, a, t))
  {
    hide LedgerBut, Ledger, TryEnqueue, TryDequeue;
    match a {
      case Dequeue => DequeueLedger(c, t);
      case DequeueAgain =>
        LedgerSame(c, c.(consumers := Runs(c.consumers, t)));
        DequeueLedger(c.(consumers := Runs(c.consumers, t)), t);
      case Enqueue(item) =>
        OfferLedger(c, item);
        if !(c.discard && Full(c.ring)) { EnqueueLedger(Offer(c, item), t, |c.offered|); }
      case EnqueueAgain =>
        AgainLedger(c, t);
        EnqueueLedger(c.(producers := Runs(c.producers, t), carried := c.carried - {t}), t, c.carried[t]);
      case CloseRead => LedgerSame(c, Step(c, a, t));
      case SignalRead =>
        SignalHas(c.producers);
        LedgerSame(c, Step(c, a, t));
      case CloseWrite => LedgerSame(c, Step(c, a, t));
      case SignalWrite => LedgerSame(c, Step(c, a, t));
    }
  }

  // ---------------------------------------------------------------------------------------
  // Whole runs.

  lemma StepInv<T>(c: Channel<T>, a: Action<T>, t: Tid)
    requires Inv(c) && Enabled(c, a, t)
    ensures Inv(Step(c, a, t)) && |Step(c, a, t).ring.buffer| == |c.ring.buffer|
  {
    hide Step, Ledger;
    FlowStep(c, a, t);
    LedgerStep(c, a, t);
  }

  lemma {:induction false} Invariant<T>(states: seq<Channel<T>>, acts: seq<(Action<T>, Tid)>, i: nat)
    requires Run(states, acts) && i < |states|
    ensures Inv(states[i]) && |states[i].ring.buffer| == |states[0].ring.buffer|
  {
    hide Step, Enabled;
    if i > 0 {
      Invariant(states, acts, i - 1);
      assert StepAt(states, acts, i - 1);
      StepInv(states[i - 1], acts[i - 1].0, acts[i - 1].1);
    }
  }

  /** First in, first out: what was removed is a prefix of what was accepted, the ring holds the
      rest in order, and there is never more of it than the true capacity. */
  lemma FirstInFirstOut<T>(states: seq<Channel<T>>, acts: seq<(Action<T>, Tid)>, i: nat)
    requires Run(states, acts) && i < |states|
    ensures states[i].ring.Ok() && states[i].accepted == states[i].removed + Items(states[i].ring)
    ensures states[i].removed <= states[i].accepted
    ensures |states[i].accepted| - |states[i].removed| <= |states[0].ring.buffer| - 1
  {
    Invariant(states, acts, i);
    EmptyIsNone(states[i].ring);
  }

  /** A consumer that sleeps beside an item has a woken consumer before it, and a producer that
      sleeps beside a free spot a woken producer. */
  lemma NoLostWakeup<T>(states: seq<Channel<T>>, acts: seq<(Action<T>, Tid)>, i: nat)
    requires Run(states, acts) && i < |states|
    ensures states[i].consumers.asleep != [] && !Empty(states[i].ring) ==> states[i].consumers.woken != {}
    ensures states[i].producers.asleep != [] && !Full(states[i].ring) ==> states[i].producers.woken != {}
  {
    Invariant(states, acts, i);
    EmptyIsNone(states[i].ring);
  }

  /** Producers and consumers never all sleep at the same time. */
  lemma NotBothAsleep<T>(states: seq<Channel<T>>, acts: seq<(Action<T>, Tid)>, i: nat)
    requires Run(states, acts) && i < |states| && |states[0].ring.buffer| >= 2
    requires states[i].consumers.asleep != [] && states[i].producers.asleep != []
    ensures states[i].consumers.woken != {} || states[i].producers.woken != {}
  {
    Invariant(states, acts, i);
    EmptyIsNone(states[i].ring);
  }

  // ---------------------------------------------------------------------------------------
  // Conservation of items.

  /** The items that the calls of the enqueue functions brought, in order. */
  ghost function Brought<T>(acts: seq<(Action<T>, Tid)>): seq<T> {
    if acts == [] then [] else
      var a := acts[|acts| - 1].0;
      Brought(acts[..|acts| - 1]) + if a.Enqueue? then [a.item] else []
  }

  lemma DequeueIs<T>(c: Channel<T>, t: Tid)
    requires c.ring.Ok()
    ensures var d := TryDequeue(c, t);
      && d.offered == c.offered && d.fate == c.fate && d.accepted == c.accepted && d.discard == c.discard
      && d.readOpen == c.readOpen && d.writeOpen == c.writeOpen && d.shutRead == c.shutRead
          && d.shutWrite == c.shutWrite
      && |d.removed| == |c.removed| + (if Empty(c.ring) then 0 else 1)
      && d.producers == (if Empty(c.ring) then c.producers else c.producers.Signal())
      && (!c.writeOpen ==> d.consumers == c.consumers)
  {
    hide Pop, Empty;
  }

  lemma EnqueueIs<T>(c: Channel<T>, t: Tid, n: nat)
    requires c.ring.Ok() && n < |c.offered| == |c.fate|
    ensures var d := TryEnqueue(c, t, n);
      && d.offered == c.offered && |d.fate| == |c.fate| && d.removed == c.removed && d.discard == c.discard
      && d.readOpen == c.readOpen && d.writeOpen == c.writeOpen && d.shutRead == c.shutRead
          && d.shutWrite == c.shutWrite
      && |d.accepted| == |c.accepted| + (if Full(c.ring) then 0 else 1)
      && d.consumers == (if Full(c.ring) then c.consumers else c.consumers.Signal())
      && (!c.readOpen ==> d.producers == c.producers)
  {
    hide Push, Full;
  }

  lemma EnqueueFate<T>(c: Channel<T>, t: Tid, n: nat)
    requires c.ring.Ok() && n < |c.offered| == |c.fate|
    ensures var d := TryEnqueue(c, t, n);
      && |d.fate| == |c.fate| && (forall m :: 0 <= m < |d.fate| && m != n ==> d.fate[m] == c.fate[m])
      && (d.fate[n] == Dropped ==> Full(c.ring) && !c.readOpen)
  {
    hide Push, Full;
  }

  // What any step does to the items offered and to the ends.
  lemma StepIs<T>(c: Channel<T>, a: Action<T>, t: Tid)
    requires Enabled(c, a, t)
    ensures var d := Step(c, a, t);
      && d.offered == c.offered + (if a.Enqueue? then [a.item] else [])
      && d.discard == c.discard && (d.readOpen ==> c.readOpen)
      && ((c.shutWrite ==> !c.writeOpen) && d.shutWrite ==> !d.writeOpen)
      && ((c.shutRead ==> !c.readOpen) && d.shutRead ==> !d.readOpen)
  {
    hide TryEnqueue, TryDequeue, Full, Empty;
    match a {
      case Dequeue => DequeueIs(c, t);
      case DequeueAgain => DequeueIs(c.(consumers := Runs(c.consumers, t)), t);
      case Enqueue(item) => if !(c.discard && Full(c.ring)) { EnqueueIs(Offer(c, item), t, |c.offered|); }
      case EnqueueAgain =>
        EnqueueIs(c.(producers := Runs(c.producers, t), carried := c.carried - {t}), t, c.carried[t]);
      case _ =>
    }
  }

  ghost function Past(w: seq<Tid>, k: int): seq<Tid> {
    if k <= 0 then w else if k <= |w| then w[k..] else []
  }

  lemma PastAdd(w: seq<Tid>, j: int, k: int)
    requires j >= 0 && k >= 0
    ensures Past(Past(w, j), k) == Past(w, j + k)
  {
    if j + k <= |w| && j > 0 && k > 0 { assert w[j..][k..] == w[j + k..]; }
  }

  lemma PastNone(w: seq<Tid>)
    ensures Past(w, 0) == w
  {
  }

  lemma SignalSleeps(w: Waiters)
    ensures w.Signal().asleep == Past(w.asleep, 1) && w.asleep == Past(w.asleep, 0)
  {
  }

  // What any step does to the sleepers of an end that is closed.
  lemma ClosedStep<T>(c: Channel<T>, a: Action<T>, t: Tid)
    requires Enabled(c, a, t)
    ensures var d := Step(c, a, t);
      && (!c.writeOpen && !c.shutWrite ==>
            && !d.writeOpen && !d.shutWrite && |c.accepted| <= |d.accepted|
            && d.consumers.asleep == Past(c.consumers.asleep, |d.accepted| - |c.accepted|))
      && (!c.readOpen && !c.shutRead ==>
            && !d.readOpen && !d.shutRead && |c.removed| <= |d.removed|
            && d.producers.asleep == Past(c.producers.asleep, |d.removed| - |c.removed|))
  {
    hide TryEnqueue, TryDequeue, Full, Empty, Past, Waiters.Signal;
    SignalSleeps(c.consumers);
    SignalSleeps(c.producers);
    match a {
      case Dequeue => DequeueIs(c, t);
      case DequeueAgain => DequeueIs(c.(consumers := Runs(c.consumers, t)), t);
      case Enqueue(item) => if !(c.discard && Full(c.ring)) { EnqueueIs(Offer(c, item), t, |c.offered|); }
      case EnqueueAgain =>
        EnqueueIs(c.(producers := Runs(c.producers, t), carried := c.carried - {t}), t, c.carried[t]);
      case _ =>
    }
  }

  /** At every point of a run the items brought so far are accounted for, each exactly once. */
  lemma {:induction false} ItemsAreConserved<T>(states: seq<Channel<T>>, acts: seq<(Action<T>, Tid)>, i: nat)
    requires Run(states, acts) && i < |states|
    ensures Ledger(states[i]) && states[i].offered == Brought(acts[..i])
  {
    hide Step, Enabled, Ledger;
    Invariant(states, acts, i);
    if i > 0 {
      ItemsAreConserved(states, acts, i - 1);
      assert StepAt(states, acts, i - 1);
      StepIs(states[i - 1], acts[i - 1].0, acts[i - 1].1);
      assert acts[..i][..i - 1] == acts[..i - 1];
    }
  }

  /** A step gives an item up only when the ring is full, and then only on the first try of a queue
      that discards, or for good once the read end is closed, on a later try as well. */
  lemma DropsOnly<T>(c: Channel<T>, a: Action<T>, t: Tid, n: nat)
    requires Enabled(c, a, t) && n < |Step(c, a, t).fate|
    requires Step(c, a, t).fate[n] == Dropped && (n < |c.fate| ==> c.fate[n] != Dropped)
    ensures Full(c.ring) && ((a.Enqueue? && c.discard) || !c.readOpen)
    ensures n == |c.offered| || (a.EnqueueAgain? && n == c.carried[t])
  {
    hide TryEnqueue, TryDequeue, Full;
    match a {
      case Dequeue => DequeueIs(c, t);
      case DequeueAgain => DequeueIs(c.(consumers := Runs(c.consumers, t)), t);
      case Enqueue(item) => if !(c.discard && Full(c.ring)) { EnqueueFate(Offer(c, item), t, |c.offered|); }
      case EnqueueAgain =>
        EnqueueFate(c.(producers := Runs(c.producers, t), carried := c.carried - {t}), t, c.carried[t]);
      case _ =>
    }
  }

  // The waiters after the one asleep longest, if any, has been woken.
  ghost predicate FirstWoken(before: Waiters, after: Waiters) {
    if before.asleep == [] then after == before
    else after.asleep == before.asleep[1..] && after.woken == before.woken + {before.asleep[0]}
  }

  /** What a try to enqueue item number n does, in terms of the items.  With room, the item joins them at
      the end and the consumer asleep longest wakes up.  Without, it is dropped exactly if the read end
      is closed or this is the first try of a queue that discards, and nobody sleeps for it; otherwise
      the producer goes to sleep behind the others and keeps it. */
  lemma EnqueueOutcome<T>(c: Channel<T>, a: Action<T>, t: Tid)
    requires Enabled(c, a, t) && (a.Enqueue? || a.EnqueueAgain?)
    ensures var d := Step(c, a, t);
      var n := if a.Enqueue? then |c.offered| else c.carried[t];
      var rest := if a.Enqueue? then c.producers else Runs(c.producers, t);
      && n < |d.offered| == |d.fate| && d.removed == c.removed
      && (a.Enqueue? ==> d.offered[n] == a.item) && (a.EnqueueAgain? ==> d.offered == c.offered)
      && if |Items(c.ring)| < |c.ring.buffer| - 1 then
           && d.fate[n] == Accepted(|c.accepted|) && d.accepted == c.accepted + [d.offered[n]] && d.ring.Ok()
           && Items(d.ring) == Items(c.ring) + [d.offered[n]] && d.producers == rest
           && FirstWoken(c.consumers, d.consumers)
         else
           && d.ring == c.ring && d.accepted == c.accepted && d.consumers == c.consumers
           && if !c.readOpen || (c.discard && a.Enqueue?) then d.fate[n] == Dropped && d.producers == rest
              else && d.fate[n] == Carried(t) && d.producers.woken == rest.woken
                   && d.producers.asleep == rest.asleep + [t]
  {
    hide Items, Count, Push;
    EmptyIsNone(c.ring);
    if !Full(c.ring) {
      PushAppends(c.ring, if a.Enqueue? then a.item else c.offered[c.carried[t]]);
    }
  }

  /** What a try to dequeue does.  The oldest item leaves and the producer asleep longest wakes up; with
      no item the consumer goes to sleep behind the others, or returns if the write end is closed. */
  lemma DequeueOutcome<T>(c: Channel<T>, a: Action<T>, t: Tid)
    requires Enabled(c, a, t) && (a.Dequeue? || a.DequeueAgain?)
    ensures var d := Step(c, a, t);
      var rest := if a.Dequeue? then c.consumers else Runs(c.consumers, t);
      && d.accepted == c.accepted && d.offered == c.offered && d.fate == c.fate
      && if Items(c.ring) != [] then
           && d.removed == c.removed + [Items(c.ring)[0]] && d.ring.Ok() && Items(d.ring) == Items(c.ring)[1..]
           && d.consumers == rest && FirstWoken(c.producers, d.producers)
         else
           && d.ring == c.ring && d.removed == c.removed && d.producers == c.producers
           && d.consumers == if c.writeOpen then rest.(asleep := rest.asleep + [t]) else rest
  {
    hide Items, Count, Pop;
    EmptyIsNone(c.ring);
    if !Empty(c.ring) { PopTakesFirst(c.ring); }
  }

  /** Without discarding and with the read end open nothing is ever lost. */
  lemma {:induction false} NothingIsLost<T>(states: seq<Channel<T>>, acts: seq<(Action<T>, Tid)>, i: nat, n: nat)
    requires Run(states, acts) && i < |states| && !states[i].discard && states[i].readOpen
    requires n < |states[i].fate|
    ensures states[i].fate[n] != Dropped
  {
    hide Step, Enabled;
    if i > 0 {
      var c, a, t := states[i - 1], acts[i - 1].0, acts[i - 1].1;
      assert StepAt(states, acts, i - 1);
      StepIs(c, a, t);
      if n < |c.fate| { NothingIsLost(states, acts, i - 1, n); }
      if Step(c, a, t).fate[n] == Dropped { DropsOnly(c, a, t, n); }
    }
  }

  // ---------------------------------------------------------------------------------------
  // What closing an end does to the threads that sleep.

  ghost predicate Took<T>(acts: seq<(Action<T>, Tid)>, i: int, a: Action<T>) {
    exists k :: 0 <= k < i && k < |acts| && acts[k].0 == a
  }

  lemma TookMore<T>(acts: seq<(Action<T>, Tid)>, i: nat, a: Action<T>)
    requires 0 < i <= |acts|
    ensures Took(acts, i, a) <==> Took(acts, i - 1, a) || acts[i - 1].0 == a
  {
  }

  lemma NoneTook<T>(acts: seq<(Action<T>, Tid)>, a: Action<T>)
    ensures !Took(acts, 0, a)
  {
  }

  // What any step does to the four flags of the ends.
  lemma EndsStep<T>(c: Channel<T>, a: Action<T>, t: Tid)
    requires Enabled(c, a, t)
    ensures var d := Step(c, a, t);
      && d.readOpen == (c.readOpen && a != CloseRead) && d.writeOpen == (c.writeOpen && a != CloseWrite)
      && d.shutRead == ((c.shutRead && a != SignalRead) || a == CloseRead)
      && d.shutWrite == ((c.shutWrite && a != SignalWrite) || a == CloseWrite)
  {
    hide TryEnqueue, TryDequeue, Full, Empty;
    match a {
      case Dequeue => DequeueIs(c, t);
      case DequeueAgain => DequeueIs(c.(consumers := Runs(c.consumers, t)), t);
      case Enqueue(item) => if !(c.discard && Full(c.ring)) { EnqueueIs(Offer(c, item), t, |c.offered|); }
      case EnqueueAgain =>
        EnqueueIs(c.(producers := Runs(c.producers, t), carried := c.carried - {t}), t, c.carried[t]);
      case _ =>
    }
  }

  /** An end is open until it is closed, and its signal is due from then until it is given. */
  lemma {:induction false} EndsOpen<T>(states: seq<Channel<T>>, acts: seq<(Action<T>, Tid)>, i: nat)
    requires Run(states, acts) && i < |states|
    ensures states[i].readOpen <==> !Took(acts, i, CloseRead)
    ensures states[i].writeOpen <==> !Took(acts, i, CloseWrite)
    ensures states[i].shutRead <==> Took(acts, i, CloseRead) && !Took(acts, i, SignalRead)
    ensures states[i].shutWrite <==> Took(acts, i, CloseWrite) && !Took(acts, i, SignalWrite)
    ensures Took(acts, i, SignalRead) ==> Took(acts, i, CloseRead)
    ensures Took(acts, i, SignalWrite) ==> Took(acts, i, CloseWrite)
  {
    hide Step, Took;
    if i > 0 {
      EndsOpen(states, acts, i - 1);
      assert StepAt(states, acts, i - 1);
      EndsStep(states[i - 1], acts[i - 1].0, acts[i - 1].1);
      TookMore(acts, i, CloseRead);
      TookMore(acts, i, CloseWrite);
      TookMore(acts, i, SignalRead);
      TookMore(acts, i, SignalWrite);
    } else {
      NoneTook(acts, CloseRead);
      NoneTook(acts, CloseWrite);
      NoneTook(acts, SignalRead);
      NoneTook(acts, SignalWrite);
    }
  }

  /** Once the write end is closed and its signal is given, no consumer falls asleep any more, and
      exactly one of those asleep wakes up, the first, for each item still accepted. */
  lemma {:induction false} AfterCloseWrite<T>(states: seq<Channel<T>>, acts: seq<(Action<T>, Tid)>, i: nat, j: nat)
    requires Run(states, acts) && i <= j < |states| && !states[i].writeOpen && !states[i].shutWrite
    ensures !states[j].writeOpen && !states[j].shutWrite && |states[i].accepted| <= |states[j].accepted|
    ensures var more := |states[j].accepted| - |states[i].accepted|;
      states[j].consumers.asleep == Past(states[i].consumers.asleep, more)
    decreases j - i
  {
    hide Step, Enabled, Past;
    PastNone(states[i].consumers.asleep);
    if i < j {
      AfterCloseWrite(states, acts, i, j - 1);
      assert StepAt(states, acts, j - 1);
      ClosedStep(states[j - 1], acts[j - 1].0, acts[j - 1].1);
      PastAdd(states[i].consumers.asleep, |states[j - 1].accepted| - |states[i].accepted|,
                 |states[j].accepted| - |states[j - 1].accepted|);
    }
  }

  /** The same for the read end: one producer wakes up for each item still removed. */
  lemma {:induction false} AfterCloseRead<T>(states: seq<Channel<T>>, acts: seq<(Action<T>, Tid)>, i: nat, j: nat)
    requires Run(states, acts) && i <= j < |states| && !states[i].readOpen && !states[i].shutRead
    ensures !states[j].readOpen && !states[j].shutRead && |states[i].removed| <= |states[j].removed|
    ensures var fewer := |states[j].removed| - |states[i].removed|;
      states[j].producers.asleep == Past(states[i].producers.asleep, fewer)
    decreases j - i
  {
    hide Step, Enabled, Past;
    PastNone(states[i].producers.asleep);
    if i < j {
      AfterCloseRead(states, acts, i, j - 1);
      assert StepAt(states, acts, j - 1);
      ClosedStep(states[j - 1], acts[j - 1].0, acts[j - 1].1);
      PastAdd(states[i].producers.asleep, |states[j - 1].removed| - |states[i].removed|,
                 |states[j].removed| - |states[j - 1].removed|);
    }
  }

  lemma {:induction false} ShutIsClosed<T>(states: seq<Channel<T>>, acts: seq<(Action<T>, Tid)>, i: nat)
    requires Run(states, acts) && i < |states|
    ensures (states[i].shutWrite ==> !states[i].writeOpen) && (states[i].shutRead ==> !states[i].readOpen)
  {
    hide Step, Enabled;
    if i > 0 {
      ShutIsClosed(states, acts, i - 1);
      assert StepAt(states, acts, i - 1);
      StepIs(states[i - 1], acts[i - 1].0, acts[i - 1].1);
    }
  }

  /** pipe_close on the write end signals only one consumer.  If nothing is accepted after that signal,
      all but the first of the consumers asleep at it sleep for good: every one of them gets away
      exactly if at most one was asleep. */
  lemma StrandedByCloseWrite<T>(states: seq<Channel<T>>, acts: seq<(Action<T>, Tid)>, i: nat, j: nat)
    requires Run(states, acts) && i < j < |states| && acts[i].0 == SignalWrite
    requires |states[j].accepted| == |states[i].accepted|
    ensures states[j].consumers.asleep == Past(states[i].consumers.asleep, 1)
    ensures states[j].consumers.asleep == [] <==> |states[i].consumers.asleep| <= 1
  {
    assert StepAt(states, acts, i);
    ShutIsClosed(states, acts, i);
    AfterCloseWrite(states, acts, i + 1, j);
  }

  lemma StrandedByCloseRead<T>(states: seq<Channel<T>>, acts: seq<(Action<T>, Tid)>, i: nat, j: nat)
    requires Run(states, acts) && i < j < |states| && acts[i].0 == SignalRead
    requires |states[j].removed| == |states[i].removed|
    ensures states[j].producers.asleep == Past(states[i].producers.asleep, 1)
    ensures states[j].producers.asleep == [] <==> |states[i].producers.asleep| <= 1
  {
    assert StepAt(states, acts, i);
    ShutIsClosed(states, acts, i);
    AfterCloseRead(states, acts, i + 1, j);
  }

  /** A run in which closing the write end leaves a consumer asleep: two wait, one is woken and
      leaves, and with nobody left to signal the other waits for good. */
  lemma CloseStrandsAConsumer() returns (states: seq<Channel<int>>, acts: seq<(Action<int>, Tid)>)
    ensures Run(states, acts)
    ensures var last := states[|acts|];
      !last.writeOpen && Empty(last.ring) && last.consumers == Waiters([2], {}) && last.producers == Waiters([], {})
  {
    var c0 := New([0, 0], false);
    var c1 := Step(c0, Dequeue, 1);
    var c2 := Step(c1, Dequeue, 2);
    assert c2.consumers == Waiters([1, 2], {});
    var c3 := Step(c2, CloseWrite, 3);
    var c4 := Step(c3, SignalWrite, 3);
    assert [1, 2][1..] == [2] && c4.consumers == Waiters([2], {1});
    var c5 := Step(c4, DequeueAgain, 1);
    states := [c0, c1, c2, c3, c4, c5];
    acts := [(Dequeue, 1), (Dequeue, 2), (CloseWrite, 3), (SignalWrite, 3), (DequeueAgain, 1)];
    forall i | 0 <= i < |acts| ensures StepAt(states, acts, i) { }
  }
}
