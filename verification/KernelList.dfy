/** The doubly linked lists of src/lib/kernel/list.c: pointer surgery on elements that sit between
    two sentinels. */
module KernelList {
  import opened Sequences

  class ListElem<T> {
    const item: T             // the structure that embeds the element
    var prev: ListElem?<T>
    var next: ListElem?<T>

    constructor (item: T)
      ensures this.item == item
    {
      this.item := item;
      prev, next := null, null;
    }
  }

  // next of element i is its successor and prev of the successor leads back.
  ghost predicate Edge<T>(s: seq<ListElem<T>>, i: int)
    reads s
  {
    0 <= i < |s| - 1 && s[i].next == s[i + 1] && s[i + 1].prev == s[i]
  }

  ghost predicate Mirrored<T>(s: seq<ListElem<T>>)
    reads s
  {
    forall i {:trigger Edge(s, i)} :: 0 <= i < |s| - 1 ==> Edge(s, i)
  }

  // Where the element at place i comes from when s[b..f] and s[f..l] change places.
  ghost function MovedFrom(b: nat, f: nat, l: nat, i: nat): nat
    requires b <= f <= l
  {
    if i < b || i >= l then i else if i < b + (l - f) then f + i - b else i - (l - f)
  }

  // s with s[b..f] and s[f..l] in each other's place.
  ghost function Moved<T>(s: seq<T>, b: nat, f: nat, l: nat): (r: seq<T>)
    requires b <= f <= l <= |s|
    ensures |r| == |s|
  {
    seq(|s|, i requires 0 <= i < |s| => s[MovedFrom(b, f, l, i)])
  }

  lemma MovedIs<T>(s: seq<T>, b: nat, f: nat, l: nat)
    requires b <= f <= l <= |s|
    ensures Moved(s, b, f, l) == s[..b] + s[f..l] + s[b..f] + s[l..]
  {
  }

  lemma MovedAt<T>(s: seq<T>, b: nat, f: nat, l: nat, i: nat)
    requires b <= f <= l <= |s| && i < |s|
    ensures MovedFrom(b, f, l, i) < |s| && Moved(s, b, f, l)[i] == s[MovedFrom(b, f, l, i)]
  {
  }

  // The new successor of the element that came from j.
  lemma MovedNext(b: nat, f: nat, l: nat, i: nat)
    requires 1 <= b < f < l
    ensures MovedFrom(b, f, l, i + 1) == Succ(b, f, l, MovedFrom(b, f, l, i))
  {
  }

  class List<T> {
    const head: ListElem<T>
    const tail: ListElem<T>
    ghost var nodes: seq<ListElem<T>>     // sentinels included
    ghost var repr: set<ListElem<T>>

    ghost predicate Valid()
      reads this, repr
    {
      && (forall i :: 0 <= i < |nodes| ==> nodes[i] in repr)
      && |nodes| >= 2 && nodes[0] == head && nodes[|nodes| - 1] == tail && NoDup(nodes)
      && head.prev == null && tail.next == null && Mirrored(nodes)
    }

    /** The elements between the sentinels. */
    ghost function Elems(): seq<ListElem<T>>
      reads this
    {
      if |nodes| >= 2 then nodes[1..|nodes| - 1] else []
    }

    /** list_init. */
    constructor (head: ListElem<T>, tail: ListElem<T>)
      requires head != tail
      modifies head, tail
      ensures Valid() && Elems() == [] && this.head == head && this.tail == tail
    {
      this.head := head;
      this.tail := tail;
      nodes := [head, tail];
      repr := {head, tail};
      head.prev := null;
      head.next := tail;
      tail.prev := head;
      tail.next := null;
    }

    /** list_insert: elem goes just before `before`, which is nodes[k]. */
    method Insert(before: ListElem<T>, elem: ListElem<T>, ghost k: nat)
      requires Valid() && 1 <= k < |nodes| && nodes[k] == before && elem !in nodes
      modifies this`nodes, this`repr, repr, elem
      ensures Valid() && repr == old(repr) + {elem} && nodes == old(nodes)[..k] + [elem] + old(nodes)[k..]
    {
      ghost var o := nodes;
      NoDupIsDistinct(o);
      assert Edge(o, k - 1);
      elem.prev := before.prev;
      elem.next := before;
      before.prev.next := elem;
      before.prev := elem;
      ghost var n := o[..k] + [elem] + o[k..];
      nodes := n;
      repr := repr + {elem};
      forall i | 0 <= i < |n| - 1 ensures Edge(n, i) {
        if i < k - 1 {
          assert old(Edge(o, i));
        } else if i > k {
          assert old(Edge(o, i - 1));
        }
      }
      NoDupIsDistinct(n);
    }

    /** list_remove: returns the element that followed. */
    method Remove(elem: ListElem<T>, ghost k: nat) returns (next: ListElem<T>)
      requires Valid() && 1 <= k < |nodes| - 1 && nodes[k] == elem
      modifies this`nodes, repr
      ensures Valid() && nodes == old(nodes)[..k] + old(nodes)[k + 1..] && next == old(nodes)[k + 1]
    {
      ghost var o := nodes;
      NoDupIsDistinct(o);
      assert Edge(o, k - 1) && Edge(o, k);
      elem.prev.next := elem.next;
      elem.next.prev := elem.prev;
      next := elem.next;
      ghost var n := o[..k] + o[k + 1..];
      nodes := n;
      forall i | 0 <= i < |n| - 1 ensures Edge(n, i) {
        if i < k - 1 {
          assert old(Edge(o, i));
        } else if i >= k {
          assert old(Edge(o, i + 1));
        }
      }
      NoDupIsDistinct(n);
    }

    // The six assignments of list_splice, with z the last element that moves.
    method Rewire(before: ListElem<T>, first: ListElem<T>, last: ListElem<T>, ghost o: seq<ListElem<T>>, ghost b: nat,
                  ghost f: nat, ghost l: nat)
      requires Distinct(o) && 1 <= b < f < l < |o| && o[b] == before && o[f] == first && o[l] == last
      requires Edge(o, b - 1) && Edge(o, f - 1) && Edge(o, l - 1)
      modifies o
      ensures o[b - 1].next == o[f] && o[l - 1].next == o[b] && o[f - 1].next == o[l]
      ensures o[f].prev == o[b - 1] && o[b].prev == o[l - 1] && o[l].prev == o[f - 1]
      ensures forall j {:trigger o[j]} :: 0 <= j < |o| && j != b - 1 && j != l - 1 && j != f - 1 ==>
        o[j].next == old(o[j].next)
      ensures forall j {:trigger o[j]} :: 0 <= j < |o| && j != f && j != b && j != l ==> o[j].prev == old(o[j].prev)
    {
      var z := last.prev;
      first.prev.next := z.next;
      z.next.prev := first.prev;
      first.prev := before.prev;
      z.next := before;
      before.prev.next := first;
      before.prev := z;
    }

    /** list_splice of elements first up to last (exclusive) to just before `before`, which comes
        before them in the same list: nodes[f..l] moves in front of nodes[b]. */
    method Splice(before: ListElem<T>, first: ListElem<T>, last: ListElem<T>, ghost b: nat, ghost f: nat, ghost l: nat)
      requires Valid() && 1 <= b <= f <= l < |nodes| && nodes[b] == before && nodes[f] == first && nodes[l] == last
      requires b < f || f == l
      modifies this`nodes, repr
      ensures Valid() && nodes == Moved(old(nodes), b, f, l)
    {
      assert f < l ==> Differ(nodes, f, l);
      if first == last {
        assert nodes == Moved(nodes, b, f, l);
      } else {
        SpliceSome(before, first, last, b, f, l);
      }
    }

    method SpliceSome(before: ListElem<T>, first: ListElem<T>, last: ListElem<T>, ghost b: nat, ghost f: nat,
                      ghost l: nat)
      requires Valid() && 1 <= b < f < l < |nodes| && nodes[b] == before && nodes[f] == first && nodes[l] == last
      modifies this`nodes, repr
      ensures Valid() && nodes == Moved(old(nodes), b, f, l)
    {
      hide NoDup, Mirrored, Hop;
      ghost var o := nodes;
      NoDupIsDistinct(o);
      SpliceLinks(before, first, last, b, f, l);
      nodes := Moved(o, b, f, l);
      HopsMirror(o, b, f, l);
      MovedDistinct(o, b, f, l);
      NoDupIsDistinct(nodes);
      MovedEnds(o, b, f, l);
    }

    // The pointer assignments: every element leads to its new successor and back.
    method SpliceLinks(before: ListElem<T>, first: ListElem<T>, last: ListElem<T>, ghost b: nat, ghost f: nat,
                       ghost l: nat)
      requires Valid() && 1 <= b < f < l < |nodes| && nodes[b] == before && nodes[f] == first && nodes[l] == last
      modifies repr
      ensures head.prev == null && tail.next == null
      ensures forall j {:trigger Hop(nodes, b, f, l, j)} :: 0 <= j < |nodes| - 1 ==> Hop(nodes, b, f, l, j)
    {
      hide NoDup;
      ghost var o := nodes;
      NoDupIsDistinct(o);
      assert Edge(o, l - 1) && Edge(o, f - 1) && Edge(o, b - 1);
      Rewire(before, first, last, o, b, f, l);
      assert head.prev == null && tail.next == null;
      forall j | 0 <= j < |o| - 1 ensures Hop(o, b, f, l, j) {
        if j != b - 1 && j != l - 1 && j != f - 1 { assert old(Edge(o, j)); }
      }
    }
  }

  // The new successor of element j and the way back.
  ghost function Succ(b: nat, f: nat, l: nat, j: nat): nat {
    if j == b - 1 then f else if j == l - 1 then b else if j == f - 1 then l else j + 1
  }

  ghost predicate Hop<T>(o: seq<ListElem<T>>, b: nat, f: nat, l: nat, j: nat)
    reads o
  {
    j < |o| && Succ(b, f, l, j) < |o| && o[j].next == o[Succ(b, f, l, j)] && o[Succ(b, f, l, j)].prev == o[j]
  }

  lemma HopsMirror<T>(o: seq<ListElem<T>>, b: nat, f: nat, l: nat)
    requires 1 <= b < f < l < |o|
    requires forall j {:trigger Hop(o, b, f, l, j)} :: 0 <= j < |o| - 1 ==> Hop(o, b, f, l, j)
    ensures Mirrored(Moved(o, b, f, l))
  {
    var n := Moved(o, b, f, l);
    MovedEnds(o, b, f, l);
    forall i | 0 <= i < |n| - 1 ensures Edge(n, i) {
      MovedAt(o, b, f, l, i);
      MovedAt(o, b, f, l, i + 1);
      MovedNext(b, f, l, i);
      assert Hop(o, b, f, l, MovedFrom(b, f, l, i));
    }
  }

  lemma MovedEnds<T>(s: seq<T>, b: nat, f: nat, l: nat)
    requires 1 <= b <= f <= l < |s|
    ensures var n := Moved(s, b, f, l); |n| == |s| && n[0] == s[0] && n[|s| - 1] == s[|s| - 1]
  {
  }

  lemma MovedDistinct<T>(s: seq<ListElem<T>>, b: nat, f: nat, l: nat)
    requires b <= f <= l <= |s| && Distinct(s)
    ensures Distinct(Moved(s, b, f, l))
  {
    var n := Moved(s, b, f, l);
    forall i, j | 0 <= i < j < |s| ensures n[i] != n[j] {
      MovedAt(s, b, f, l, i);
      MovedAt(s, b, f, l, j);
    }
  }
}
