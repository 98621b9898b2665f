/** The ring of src/lib/kernel/queue.c and src/filesys/pipe.c: head points just before the first
    item, tail at the last; one spot stays empty. */
module RingBuffer {

  datatype Ring<T> = Ring(buffer: seq<T>, head: nat, tail: nat)
  {
    ghost predicate Ok() {
      |buffer| >= 1 && head < |buffer| && tail < |buffer|
    }
  }

  /** The spot after i, with wrap-around. */
  function Next(i: nat, capacity: nat): nat {
    if i + 1 == capacity then 0 else i + 1
  }

  lemma NextIsRemainder(i: nat, capacity: nat)
    requires i < capacity
    ensures Next(i, capacity) == (i + 1) % capacity
  {
    if i + 1 < capacity { SmallRemainder(i + 1, capacity); }
  }

  lemma SmallRemainder(i: nat, capacity: nat)
    requires i < capacity
    ensures i % capacity == i
  {
  }

  predicate Empty<T>(r: Ring<T>) { r.head == r.tail }

  predicate Full<T>(r: Ring<T>) { r.head == Next(r.tail, |r.buffer|) }

  function Push<T>(r: Ring<T>, item: T): Ring<T>
    requires r.Ok()
  {
    var tail := Next(r.tail, |r.buffer|);
    Ring(r.buffer[tail := item], r.head, tail)
  }

  function Pop<T>(r: Ring<T>): (Ring<T>, T)
    requires r.Ok()
  {
    var head := Next(r.head, |r.buffer|);
    (r.(head := head), r.buffer[head])
  }

  /** How many items there are. */
  ghost function Count<T>(r: Ring<T>): int {
    if r.tail >= r.head then r.tail - r.head else r.tail + |r.buffer| - r.head
  }

  // The spot of item k.
  ghost function Spot<T>(r: Ring<T>, k: nat): int {
    if r.head + 1 + k < |r.buffer| then r.head + 1 + k else r.head + 1 + k - |r.buffer|
  }

  /** The items, oldest first. */
  ghost function Items<T>(r: Ring<T>): (s: seq<T>)
    requires r.Ok()
    ensures |s| == Count(r)
  {
    seq(Count(r), k requires 0 <= k < Count(r) => r.buffer[Spot(r, k)])
  }

  lemma EmptyIsNone<T>(r: Ring<T>)
    requires r.Ok()
    ensures 0 <= Count(r) <= |r.buffer| - 1
    ensures Empty(r) <==> Count(r) == 0
    ensures Full(r) <==> Count(r) == |r.buffer| - 1
  {
  }

  /** Pushing appends. */
  lemma PushAppends<T>(r: Ring<T>, item: T)
    requires r.Ok() && !Full(r)
    ensures Push(r, item).Ok() && Items(Push(r, item)) == Items(r) + [item]
  {
    var p := Push(r, item);
    assert Count(p) == Count(r) + 1;
    forall k | 0 <= k < Count(p) ensures Items(p)[k] == (Items(r) + [item])[k] {
      assert Spot(p, k) == Spot(r, k);
    }
  }

  /** Popping takes the first. */
  lemma PopTakesFirst<T>(r: Ring<T>)
    requires r.Ok() && !Empty(r)
    ensures Pop(r).0.Ok() && Items(r) == [Pop(r).1] + Items(Pop(r).0)
  {
    var p := Pop(r).0;
    assert Count(p) == Count(r) - 1;
    forall k | 0 <= k < Count(r) ensures Items(r)[k] == ([Pop(r).1] + Items(p))[k] {
      if k > 0 { assert Spot(p, k - 1) == Spot(r, k); }
    }
  }
}
