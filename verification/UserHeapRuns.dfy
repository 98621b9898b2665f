/** Whole runs of a program over the allocator of src/lib/user/malloc.c: any sequence of malloc, free
    and stores, while the memory that the kernel is willing to give comes and goes. */
module UserHeapRuns {
  import opened Sequences
  import opened UserHeapLists
  import opened UserHeapBlocks
  import opened UserHeapInvariant
  import opened UserHeap

  // What happens next: the program asks for memory, frees block number `which` of those it holds or
  // stores word k of it, or the kernel changes what it is willing to give.
  datatype Request = Get(size: nat) | GiveBack(which: nat) | Write(which: nat, k: nat, w: Word) | Offer(words: nat)

  // A request that was served; for Get the pointer returned, and the words of the block then.
  datatype Event = Event(request: Request, p: nat, words: seq<Word>)

  // The allocator as seen from outside: the live blocks, the kernel's offer, the break.
  datatype Point = Point(live: map<nat, seq<Word>>, avail: nat, brk: nat)

  ghost function At(h: Heap): Point
    reads h
  {
    Point(h.Live(), h.avail, |h.mem|)
  }

  // ---------------------------------------------------------------------------------------
  // What the program's own history says.

  function StepHeld(held: seq<nat>, e: Event): seq<nat> {
    match e.request
    case Get(_) => if e.p == 0 then held else held + [e.p]
    case GiveBack(which) => if which < |held| then RemoveAt(held, which) else held
    case _ => held
  }

  /** The pointers that the program holds after the events, in the order in which it got them. */
  ghost function HeldAfter(trace: seq<Event>): seq<nat> {
    if trace == [] then [] else StepHeld(HeldAfter(trace[..|trace| - 1]), trace[|trace| - 1])
  }

  ghost function StepShadow(shadow: map<nat, seq<Word>>, held: seq<nat>, e: Event): map<nat, seq<Word>> {
    match e.request
    case Get(_) => if e.p == 0 then shadow else shadow[e.p - 1 := e.words]
    case GiveBack(which) => if which < |held| && held[which] > 0 then shadow - {held[which] - 1} else shadow
    case Write(which, k, w) =>
      if which < |held| && held[which] > 0 && held[which] - 1 in shadow && k < |shadow[held[which] - 1]| then
        shadow[held[which] - 1 := shadow[held[which] - 1][k := w]]
      else shadow
    case Offer(_) => shadow
  }

  /** The words that the program's own calls and stores say its blocks hold, by block. */
  ghost function Shadow(trace: seq<Event>): map<nat, seq<Word>> {
    if trace == [] then map[]
    else
      var before := trace[..|trace| - 1];
      StepShadow(Shadow(before), HeldAfter(before), trace[|trace| - 1])
  }

  // ---------------------------------------------------------------------------------------
  // What one request does.

  /** What malloc promises, at a point of the run. */
  ghost predicate GetOk(a: Point, size: nat, p: nat, words: seq<Word>, b: Point)
    requires size < SIZE_T
  {
    && b.brk + b.avail == a.brk + a.avail && a.brk <= b.brk
    && (p == 0 ==>
          && b.live == a.live && (a.brk > HEAP ==> b.brk == a.brk)
          && (size == 0 || Heap.Refused(b.avail, AdjustedWords(size))))
    && (p != 0 ==>
          && size != 0 && p % 4 == 0 && p - 1 !in a.live && b.live == a.live[p - 1 := words]
          && AdjustedWords(size) <= |words| + 1 < AdjustedWords(size) + MIN_BLOCK_SIZE_WORDS)
    && (a.brk > HEAP ==> b.brk == a.brk || b.brk == a.brk + Max(AdjustedWords(size), CHUNKSIZE))
  }

  ghost predicate StepOk(a: Point, e: Event, b: Point) {
    match e.request
    case Get(size) => size < SIZE_T && GetOk(a, size, e.p, e.words, b)
    case Offer(words) =>
      a.brk < MAX_WORDS &&
      b == a.(avail := if a.brk + words < MAX_WORDS then words else MAX_WORDS - 1 - a.brk)
    case _ => b.avail == a.avail && b.brk == a.brk
  }

  // The request kills the process: the first one for memory, on a kernel that has none.
  ghost predicate Kills(a: Point, r: Request) {
    r.Get? && r.size != 0 && a.brk == HEAP && a.avail < 4
  }

  // ---------------------------------------------------------------------------------------
  // Runs.

  ghost predicate LiveIs(live0: map<nat, seq<Word>>, trace: seq<Event>, points: seq<Point>, i: int)
    requires 0 <= i <= |trace| < |points|
  {
    points[i].live == live0 + Shadow(trace[..i])
  }

  ghost predicate Stepped(trace: seq<Event>, points: seq<Point>, i: int)
    requires 0 <= i < |trace| < |points|
  {
    StepOk(points[i], trace[i], points[i + 1])
  }

  /** Every request did what it promises, and at every moment the live blocks are those from before
      the run, unchanged, and the program's own with exactly the words its history says. */
  ghost predicate Run(live0: map<nat, seq<Word>>, trace: seq<Event>, points: seq<Point>) {
    && |points| == |trace| + 1
    && (forall i {:trigger Stepped(trace, points, i)} :: 0 <= i < |trace| ==> Stepped(trace, points, i))
    && (forall i {:trigger LiveIs(live0, trace, points, i)} :: 0 <= i <= |trace| ==> LiveIs(live0, trace, points, i))
  }

  // The pointers held are those of the program's blocks, all different and none from before.
  ghost predicate Owned(live0: map<nat, seq<Word>>, held: seq<nat>, shadow: map<nat, seq<Word>>) {
    && Distinct(held)
    && (forall p :: p in held ==> p > 0 && p - 1 in shadow)
    && (forall b :: b in shadow ==> b + 1 in held)
    && (forall b :: b in shadow ==> b !in live0)
  }

  lemma Prefixes(trace: seq<Event>, e: Event, i: nat)
    requires i <= |trace|
    ensures (trace + [e])[..i] == trace[..i]
  {
  }

  lemma HistoryStep(trace: seq<Event>, e: Event)
    ensures HeldAfter(trace + [e]) == StepHeld(HeldAfter(trace), e)
    ensures Shadow(trace + [e]) == StepShadow(Shadow(trace), HeldAfter(trace), e)
  {
    assert (trace + [e])[..|trace|] == trace;
  }

  lemma RunStep(live0: map<nat, seq<Word>>, trace: seq<Event>, points: seq<Point>, e: Event, b: Point)
    requires Run(live0, trace, points) && StepOk(points[|trace|], e, b)
    requires b.live == live0 + StepShadow(Shadow(trace), HeldAfter(trace), e)
    ensures Run(live0, trace + [e], points + [b])
  {
    hide StepOk, Shadow, HeldAfter, StepShadow;
    var trace', points' := trace + [e], points + [b];
    forall i | 0 <= i < |trace'| ensures Stepped(trace', points', i) {
      if i < |trace| { assert Stepped(trace, points, i); }
    }
    forall i | 0 <= i <= |trace'| ensures LiveIs(live0, trace', points', i) {
      if i <= |trace| {
        assert LiveIs(live0, trace, points, i);
        Prefixes(trace, e, i);
      } else {
        assert trace'[..i] == trace';
        HistoryStep(trace, e);
      }
    }
  }

  lemma RunStart(live0: map<nat, seq<Word>>, a: Point)
    requires a.live == live0
    ensures Run(live0, [], [a]) && HeldAfter([]) == [] && Owned(live0, [], Shadow([]))
  {
    assert live0 + map[] == live0;
    assert LiveIs(live0, [], [a], 0);
  }

  lemma AppendDistinct(held: seq<nat>, p: nat)
    requires Distinct(held) && p !in held
    ensures Distinct(held + [p])
  {
  }

  lemma GetOwned(live0: map<nat, seq<Word>>, held: seq<nat>, shadow: map<nat, seq<Word>>, p: nat, words: seq<Word>)
    requires Owned(live0, held, shadow) && p > 0 && p - 1 !in live0 + shadow
    ensures Owned(live0, held + [p], shadow[p - 1 := words])
  {
    hide Distinct;
    var more, shadow' := held + [p], shadow[p - 1 := words];
    AppendDistinct(held, p);
    forall q | q in more ensures q > 0 && q - 1 in shadow' { if q != p { assert q in held; } }
    forall b | b in shadow' ensures b + 1 in more && b !in live0 { if b != p - 1 { assert b + 1 in held; } }
  }

  lemma FewerOwned(live0: map<nat, seq<Word>>, held: seq<nat>, shadow: map<nat, seq<Word>>, which: nat)
    requires Owned(live0, held, shadow) && which < |held|
    ensures held[which] > 0 && held[which] - 1 in shadow && held[which] - 1 !in live0
    ensures Owned(live0, RemoveAt(held, which), shadow - {held[which] - 1})
  {
    hide Distinct, RemoveAt;
    var p, fewer := held[which], RemoveAt(held, which);
    assert p in held;
    RemoveAtDistinct(held, which);
    var rest := shadow - {p - 1};
    forall q | q in fewer ensures q > 0 && q - 1 in rest { assert q in held; }
    forall b | b in rest ensures b + 1 in fewer && b !in live0 { assert b in shadow; }
  }

  lemma MoreOf(live0: map<nat, seq<Word>>, shadow: map<nat, seq<Word>>, x: nat, v: seq<Word>)
    ensures (live0 + shadow)[x := v] == live0 + shadow[x := v]
  {
  }

  lemma LessOf(live0: map<nat, seq<Word>>, shadow: map<nat, seq<Word>>, x: nat)
    requires x !in live0
    ensures (live0 + shadow) - {x} == live0 + (shadow - {x})
  {
  }

  lemma WriteOwned(live0: map<nat, seq<Word>>, held: seq<nat>, shadow: map<nat, seq<Word>>, which: nat, v: seq<Word>)
    requires Owned(live0, held, shadow) && which < |held|
    ensures held[which] > 0 && held[which] - 1 in shadow
    ensures var x := held[which] - 1;
      Owned(live0, held, shadow[x := v]) && (live0 + shadow)[x := v] == live0 + shadow[x := v]
    ensures (live0 + shadow)[held[which] - 1] == shadow[held[which] - 1]
  {
    assert held[which] in held;
  }

  // ---------------------------------------------------------------------------------------
  // The program.

  // The state of a run after some of its requests.
  ghost predicate Going(h: Heap, live0: map<nat, seq<Word>>, trace: seq<Event>, points: seq<Point>, held: seq<nat>)
    reads h
  {
    && h.Valid() && Run(live0, trace, points) && points[|trace|] == At(h)
    && held == HeldAfter(trace) && Owned(live0, held, Shadow(trace))
  }

  lemma LiveNow(h: Heap, live0: map<nat, seq<Word>>, trace: seq<Event>, points: seq<Point>, held: seq<nat>)
    requires Going(h, live0, trace, points, held)
    ensures h.Live() == live0 + Shadow(trace)
  {
    assert LiveIs(live0, trace, points, |trace|);
    assert trace[..|trace|] == trace;
  }

  lemma MemSize(h: Heap)
    requires h.Valid()
    ensures HEAP <= |h.mem| && (h.heapListp == 0 <==> |h.mem| == HEAP)
  {
  }

  lemma GetStep(live0: map<nat, seq<Word>>, trace: seq<Event>, points: seq<Point>, held: seq<nat>,
                size: nat, p: nat, words: seq<Word>, b: Point)
    requires Run(live0, trace, points) && held == HeldAfter(trace) && Owned(live0, held, Shadow(trace))
    requires size < SIZE_T && points[|trace|].live == live0 + Shadow(trace) && GetOk(points[|trace|], size, p, words, b)
    ensures var e := Event(Get(size), p, words);
      && Run(live0, trace + [e], points + [b]) && HeldAfter(trace + [e]) == (if p == 0 then held else held + [p])
      && Owned(live0, HeldAfter(trace + [e]), Shadow(trace + [e]))
  {
    hide Run, Shadow, HeldAfter, Owned;
    var e := Event(Get(size), p, words);
    RunLength(live0, trace, points);
    HistoryStep(trace, e);
    if p != 0 {
      GetOwned(live0, held, Shadow(trace), p, words);
      MoreOf(live0, Shadow(trace), p - 1, words);
    }
    RunStep(live0, trace, points, e, b);
  }

  lemma RunLength(live0: map<nat, seq<Word>>, trace: seq<Event>, points: seq<Point>)
    requires Run(live0, trace, points)
    ensures |points| == |trace| + 1
  {
  }

  method DoGet(h: Heap, size: nat, held: seq<nat>,
               ghost live0: map<nat, seq<Word>>, ghost trace: seq<Event>, ghost points: seq<Point>)
    returns (more: seq<nat>, fault: bool, ghost e: Event)
    requires Going(h, live0, trace, points, held) && size < SIZE_T
    modifies h
    ensures fault <==> Kills(points[|trace|], Get(size))
    ensures e.request == Get(size)
    ensures if fault then At(h) == old(At(h)) && Going(h, live0, trace, points, more)
            else Going(h, live0, trace + [e], points + [At(h)], more)
  {
    hide Run, Shadow, HeldAfter, Owned, Inv, Contents;
    RunLength(live0, trace, points);
    LiveNow(h, live0, trace, points, held);
    MemSize(h);
    var p: nat;
    p, fault := h.Malloc(size);
    MemSize(h);
    e := Event(Get(size), p, if p == 0 then [] else h.Live()[p - 1]);
    more := if p == 0 then held else held + [p];
    if !fault {
      GetStep(live0, trace, points, held, size, p, e.words, At(h));
    }
  }

  lemma GiveStep(live0: map<nat, seq<Word>>, trace: seq<Event>, points: seq<Point>, held: seq<nat>,
                 which: nat, b: Point)
    requires Run(live0, trace, points) && held == HeldAfter(trace) && Owned(live0, held, Shadow(trace))
    requires points[|trace|].live == live0 + Shadow(trace)
    requires b.avail == points[|trace|].avail && b.brk == points[|trace|].brk
    requires b.live == if which < |held| && held[which] > 0 then points[|trace|].live - {held[which] - 1}
                       else points[|trace|].live
    ensures var e := Event(GiveBack(which), 0, []);
      && Run(live0, trace + [e], points + [b])
      && HeldAfter(trace + [e]) == (if which < |held| then RemoveAt(held, which) else held)
      && Owned(live0, HeldAfter(trace + [e]), Shadow(trace + [e]))
  {
    hide Run, Shadow, HeldAfter, Owned;
    var e := Event(GiveBack(which), 0, []);
    RunLength(live0, trace, points);
    HistoryStep(trace, e);
    if which < |held| {
      FewerOwned(live0, held, Shadow(trace), which);
      LessOf(live0, Shadow(trace), held[which] - 1);
    }
    RunStep(live0, trace, points, e, b);
  }

  method DoGiveBack(h: Heap, which: nat, held: seq<nat>,
                    ghost live0: map<nat, seq<Word>>, ghost trace: seq<Event>, ghost points: seq<Point>)
    returns (fewer: seq<nat>)
    requires Going(h, live0, trace, points, held)
    modifies h
    ensures Going(h, live0, trace + [Event(GiveBack(which), 0, [])], points + [At(h)], fewer)
  {
    hide Run, Shadow, HeldAfter, Owned, Inv, Contents;
    RunLength(live0, trace, points);
    LiveNow(h, live0, trace, points, held);
    MemSize(h);
    fewer := held;
    if which < |held| {
      HoldsBlock(h, live0, held, Shadow(trace), which);
      h.Free(held[which]);
      fewer := RemoveAt(held, which);
    }
    GiveStep(live0, trace, points, held, which, At(h));
  }

  // A block that the program holds is live, so the heap is in use; its header has its size.
  lemma HoldsBlock(h: Heap, live0: map<nat, seq<Word>>, held: seq<nat>, shadow: map<nat, seq<Word>>, which: nat)
    requires h.Valid() && Owned(live0, held, shadow) && which < |held| && h.Live() == live0 + shadow
    ensures held[which] > 0 && held[which] - 1 in h.Live() && h.heapListp != 0
    ensures held[which] - 1 < |h.mem| && held[which] - 1 in shadow
    ensures h.Live()[held[which] - 1] == shadow[held[which] - 1]
    ensures |h.Live()[held[which] - 1]| + 1 == h.mem[held[which] - 1].size
  {
    hide Inv, Distinct;
    assert held[which] in held;
    var x := held[which] - 1;
    assert x in h.lay && h.lay[x].used;
    BoundaryTags(h.mem, h.lay, h.ch, x);
  }

  lemma WriteStep(live0: map<nat, seq<Word>>, trace: seq<Event>, points: seq<Point>, held: seq<nat>,
                  which: nat, k: nat, w: Word, b: Point)
    requires Run(live0, trace, points) && held == HeldAfter(trace) && Owned(live0, held, Shadow(trace))
    requires points[|trace|].live == live0 + Shadow(trace)
    requires b.avail == points[|trace|].avail && b.brk == points[|trace|].brk
    requires var live := points[|trace|].live;
      b.live == if which < |held| && held[which] > 0 && held[which] - 1 in live && k < |live[held[which] - 1]|
                then live[held[which] - 1 := live[held[which] - 1][k := w]] else live
    ensures var e := Event(Write(which, k, w), 0, []);
      && Run(live0, trace + [e], points + [b]) && HeldAfter(trace + [e]) == held
      && Owned(live0, held, Shadow(trace + [e]))
  {
    hide Run, Shadow, HeldAfter, Owned;
    var e, shadow := Event(Write(which, k, w), 0, []), Shadow(trace);
    RunLength(live0, trace, points);
    HistoryStep(trace, e);
    if which < |held| {
      WriteOwned(live0, held, shadow, which, []);
      var v := shadow[held[which] - 1];
      if k < |v| { WriteOwned(live0, held, shadow, which, v[k := w]); }
    }
    RunStep(live0, trace, points, e, b);
  }

  method DoWrite(h: Heap, which: nat, k: nat, w: Word, held: seq<nat>,
                 ghost live0: map<nat, seq<Word>>, ghost trace: seq<Event>, ghost points: seq<Point>)
    requires Going(h, live0, trace, points, held)
    modifies h
    ensures Going(h, live0, trace + [Event(Write(which, k, w), 0, [])], points + [At(h)], held)
  {
    hide Run, Shadow, HeldAfter, Owned, Inv, Contents;
    RunLength(live0, trace, points);
    LiveNow(h, live0, trace, points, held);
    if which < |held| {
      HoldsBlock(h, live0, held, Shadow(trace), which);
      if k + 1 < h.mem[held[which] - 1].size {
        h.Store(held[which], k, w);
      }
    }
    WriteStep(live0, trace, points, held, which, k, w, At(h));
  }

  method DoOffer(h: Heap, words: nat, ghost held: seq<nat>,
                 ghost live0: map<nat, seq<Word>>, ghost trace: seq<Event>, ghost points: seq<Point>)
    requires Going(h, live0, trace, points, held)
    modifies h
    ensures Going(h, live0, trace + [Event(Offer(words), 0, [])], points + [At(h)], held)
  {
    hide Run, Shadow, HeldAfter, Owned, Inv, Contents;
    RunLength(live0, trace, points);
    LiveNow(h, live0, trace, points, held);
    h.KernelOffers(words);
    ghost var e := Event(Offer(words), 0, []);
    HistoryStep(trace, e);
    RunStep(live0, trace, points, e, At(h));
  }

  /** Any sequence of malloc, free, stores and changes of the kernel's offer, by a program that frees
      and writes only what it holds.  Each request is served in turn and does what it promises; at
      every point of the run every block holds exactly the words that the program's own history
      says, and blocks from before the run are as they were.  The run ends early only where the
      first request for memory kills the process. */
  method Session(h: Heap, requests: seq<Request>)
    returns (held: seq<nat>, dead: bool, ghost trace: seq<Event>, ghost points: seq<Point>)
    requires h.Valid() && forall r :: r in requests && r.Get? ==> r.size < SIZE_T
    modifies h
    ensures h.Valid() && Run(old(h.Live()), trace, points)
    ensures points[0] == old(At(h)) && points[|trace|] == At(h)
    ensures |trace| <= |requests| && forall i :: 0 <= i < |trace| ==> trace[i].request == requests[i]
    ensures held == HeldAfter(trace) && Owned(old(h.Live()), held, Shadow(trace))
    ensures dead <==> |trace| < |requests|
    ensures dead ==> Kills(points[|trace|], requests[|trace|])
    ensures forall i :: 0 <= i < |trace| ==> !Kills(points[i], requests[i])
  {
    hide Run, Shadow, HeldAfter, Owned;
    ghost var live0 := h.Live();
    held, dead, trace, points := [], false, [], [At(h)];
    RunStart(live0, At(h));
    var n := 0;
    while n < |requests|
      invariant n == |trace| <= |requests| && Going(h, live0, trace, points, held)
      invariant |points| == |trace| + 1 && points[0] == old(At(h))
      invariant forall i :: 0 <= i < |trace| ==> trace[i].request == requests[i] && !Kills(points[i], requests[i])
    {
      ghost var e := Event(requests[n], 0, []);
      match requests[n] {
        case Get(size) =>
          assert requests[n] in requests;
          held, dead, e := DoGet(h, size, held, live0, trace, points);
          if dead {
            return;
          }
        case GiveBack(which) => held := DoGiveBack(h, which, held, live0, trace, points);
        case Write(which, k, w) => DoWrite(h, which, k, w, held, live0, trace, points);
        case Offer(words) => DoOffer(h, words, held, live0, trace, points);
      }
      trace, points := trace + [e], points + [At(h)];
      n := n + 1;
    }
  }

  // ---------------------------------------------------------------------------------------
  // Words stay until the program itself changes them.

  // The event stores into the block that starts at b, or frees it.
  ghost predicate Touches(held: seq<nat>, e: Event, b: nat) {
    match e.request
    case GiveBack(which) => which < |held| && held[which] == b + 1
    case Write(which, _, _) => which < |held| && held[which] == b + 1
    case _ => false
  }

  ghost predicate TouchedAt(trace: seq<Event>, m: int, b: nat)
    requires 0 <= m < |trace|
  {
    Touches(HeldAfter(trace[..m]), trace[m], b) || (trace[m].request.Get? && trace[m].p == b + 1)
  }

  /** Between two points of a run a block keeps its words unless the program stored into it, freed
      it or was given it anew in between: no call of malloc or free for another block matters. */
  lemma {:induction false} WordsStay(trace: seq<Event>, i: nat, j: nat, b: nat)
    requires i <= j <= |trace| && b in Shadow(trace[..i])
    requires forall m {:trigger TouchedAt(trace, m, b)} :: i <= m < j ==> !TouchedAt(trace, m, b)
    ensures b in Shadow(trace[..j]) && Shadow(trace[..j])[b] == Shadow(trace[..i])[b]
    decreases j - i
  {
    hide Shadow, HeldAfter;
    if i < j {
      WordsStay(trace, i, j - 1, b);
      assert !TouchedAt(trace, j - 1, b);
      assert trace[..j] == trace[..j - 1] + [trace[j - 1]];
      HistoryStep(trace[..j - 1], trace[j - 1]);
    }
  }
}
