/** The order in which the buffer cache of src/filesys/cache.c keeps its blocks, over sector numbers
    alone: what a request does to it, and the law that holds over every sequence of requests. */
module LruOrder {
  import opened Sequences

  const MAX_CACHE_SIZE: nat := 64

  // Where s is in the order.
  ghost function Position(order: seq<nat>, s: nat): (k: nat)
    requires s in order
    ensures k < |order| && order[k] == s
  {
    var k: nat :| k < |order| && order[k] == s;
    k
  }

  /** The last place whose sector nobody holds, -1 for none. */
  ghost function LastUnheld(order: seq<nat>, held: set<nat>): (k: int)
    ensures -1 <= k < |order| && (k >= 0 ==> order[k] !in held)
    ensures forall j :: k < j < |order| ==> order[j] in held
  {
    if order == [] then -1
    else if order[|order| - 1] !in held then |order| - 1
    else LastUnheld(order[..|order| - 1], held)
  }

  /** A request for sector s while the sectors in `held` cannot be given up: s comes to the front, and if
      it was not cached and there is no room it takes the last place that can be given up. */
  ghost function Requested(order: seq<nat>, held: set<nat>, s: nat): seq<nat> {
    if s in order then [s] + RemoveAt(order, Position(order, s))
    else if |order| < MAX_CACHE_SIZE then [s] + order
    else if LastUnheld(order, held) >= 0 then [s] + RemoveAt(order, LastUnheld(order, held))
    else order
  }

  // ---------------------------------------------------------------------------------------
  // Sequences of requests.

  // A sector, and the sectors that are held when it is requested.
  datatype Request = Request(sector: nat, held: set<nat>)

  ghost function CachedAfter(reqs: seq<Request>): seq<nat> {
    if reqs == [] then []
    else
      var last := reqs[|reqs| - 1];
      Requested(CachedAfter(reqs[..|reqs| - 1]), last.held, last.sector)
  }

  // Some sector can be given up whenever one has to be.
  ghost predicate Grantable(order: seq<nat>, r: Request) {
    r.sector in order || |order| < MAX_CACHE_SIZE || LastUnheld(order, r.held) >= 0
  }

  ghost predicate Possible(reqs: seq<Request>) {
    reqs == [] || (Possible(reqs[..|reqs| - 1]) && Grantable(CachedAfter(reqs[..|reqs| - 1]), reqs[|reqs| - 1]))
  }

  /** When sector s was last requested: the number of that request, -1 for never. */
  ghost function LastRequest(reqs: seq<Request>, s: nat): (k: int)
    ensures -1 <= k < |reqs| && (k >= 0 ==> reqs[k].sector == s)
    ensures forall j :: k < j < |reqs| ==> reqs[j].sector != s
  {
    if reqs == [] then -1
    else if reqs[|reqs| - 1].sector == s then |reqs| - 1
    else LastRequest(reqs[..|reqs| - 1], s)
  }

  // The order is that of the last requests, the latest first.
  ghost predicate ByLastRequest(order: seq<nat>, reqs: seq<Request>) {
    && |order| <= MAX_CACHE_SIZE
    && (forall i :: 0 <= i < |order| ==> LastRequest(reqs, order[i]) >= 0)
    && (forall i, j :: 0 <= i < j < |order| ==> LastRequest(reqs, order[i]) > LastRequest(reqs, order[j]))
  }

  lemma RequestMore(reqs: seq<Request>, r: Request, s: nat)
    ensures LastRequest(reqs + [r], s) == if s == r.sector then |reqs| else LastRequest(reqs, s)
  {
    assert (reqs + [r])[..|reqs|] == reqs;
  }

  // Dropping one place keeps the others in order.
  lemma DroppedInOrder(order: seq<nat>, reqs: seq<Request>, k: nat)
    requires ByLastRequest(order, reqs) && k < |order|
    ensures ByLastRequest(RemoveAt(order, k), reqs)
    ensures forall x :: x in RemoveAt(order, k) <==> x in order && x != order[k]
  {
    var rest := RemoveAt(order, k);
    forall i | 0 <= i < |rest| ensures rest[i] == order[if i < k then i else i + 1] { }
    RemoveAtDistinct(order, k);
  }

  lemma FrontInOrder(order: seq<nat>, reqs: seq<Request>, r: Request)
    requires ByLastRequest(order, reqs) && r.sector !in order && |order| < MAX_CACHE_SIZE
    ensures ByLastRequest([r.sector] + order, reqs + [r])
  {
    var order', reqs' := [r.sector] + order, reqs + [r];
    forall i | 0 <= i < |order'|
      ensures LastRequest(reqs', order'[i]) == if i == 0 then |reqs| else LastRequest(reqs, order[i - 1])
    {
      RequestMore(reqs, r, order'[i]);
    }
  }

  lemma RequestedInOrder(order: seq<nat>, reqs: seq<Request>, r: Request)
    requires ByLastRequest(order, reqs) && Grantable(order, r)
    ensures ByLastRequest(Requested(order, r.held, r.sector), reqs + [r])
  {
    hide ByLastRequest;
    SizeOf(order, reqs);
    if r.sector in order {
      DroppedInOrder(order, reqs, Position(order, r.sector));
      FrontInOrder(RemoveAt(order, Position(order, r.sector)), reqs, r);
    } else if |order| < MAX_CACHE_SIZE {
      FrontInOrder(order, reqs, r);
    } else {
      DroppedInOrder(order, reqs, LastUnheld(order, r.held));
      FrontInOrder(RemoveAt(order, LastUnheld(order, r.held)), reqs, r);
    }
  }

  lemma SizeOf(order: seq<nat>, reqs: seq<Request>)
    requires ByLastRequest(order, reqs)
    ensures |order| <= MAX_CACHE_SIZE
  {
  }

  /** After any sequence of requests the cached sectors stand in the order of their last requests. */
  lemma {:induction false} CachedInOrder(reqs: seq<Request>)
    requires Possible(reqs)
    ensures ByLastRequest(CachedAfter(reqs), reqs)
    decreases |reqs|
  {
    if reqs != [] {
      var before, last := reqs[..|reqs| - 1], reqs[|reqs| - 1];
      CachedInOrder(before);
      RequestedInOrder(CachedAfter(before), before, last);
      assert before + [last] == reqs;
    }
  }

  /** The law: after any sequence of requests, a request that misses on a full cache drops exactly one
      sector, one that nobody holds, and of all those the one last requested furthest back. */
  lemma LeastRecentlyRequested(reqs: seq<Request>, r: Request) returns (v: nat)
    requires Possible(reqs + [r]) && r.sector !in CachedAfter(reqs) && |CachedAfter(reqs)| == MAX_CACHE_SIZE
    ensures v in CachedAfter(reqs) && v !in r.held
    ensures forall x :: x in CachedAfter(reqs + [r]) <==> x == r.sector || (x in CachedAfter(reqs) && x != v)
    ensures forall x :: x in CachedAfter(reqs) && x !in r.held ==> LastRequest(reqs, v) <= LastRequest(reqs, x)
  {
    var order := CachedAfter(reqs);
    assert (reqs + [r])[..|reqs|] == reqs;
    CachedInOrder(reqs);
    var k := LastUnheld(order, r.held);
    v := order[k];
    DroppedInOrder(order, reqs, k);
    forall x | x in order && x !in r.held ensures LastRequest(reqs, v) <= LastRequest(reqs, x) {
      var j :| 0 <= j < |order| && order[j] == x;
      assert j <= k;
    }
  }

  /** While there is room, or on a hit, nothing is dropped. */
  lemma NothingDropped(reqs: seq<Request>, r: Request)
    requires Possible(reqs) && (r.sector in CachedAfter(reqs) || |CachedAfter(reqs)| < MAX_CACHE_SIZE)
    ensures forall x :: x in CachedAfter(reqs + [r]) <==> x == r.sector || x in CachedAfter(reqs)
  {
    var order := CachedAfter(reqs);
    assert (reqs + [r])[..|reqs|] == reqs;
    CachedInOrder(reqs);
    if r.sector in order { DroppedInOrder(order, reqs, Position(order, r.sector)); }
  }
}
