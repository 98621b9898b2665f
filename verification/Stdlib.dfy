/** sort and binary_search of src/lib/stdlib.c, on an array of bytes that holds elements of `size`
    bytes each. */
module Stdlib {
  import opened Bytes
  import opened Numbers
  import opened Heap

  type Elem = seq<byte>

  /** k * size, the place where element k begins. */
  function Offset(k: nat, size: nat): nat {
    if k == 0 then 0 else Offset(k - 1, size) + size
  }

  lemma {:induction false} OffsetIs(k: nat, size: nat)
    ensures Offset(k, size) == k * size
  {
    if k > 0 { OffsetIs(k - 1, size); }
  }

  lemma {:induction false} OffsetMono(a: nat, b: nat, size: nat)
    requires a <= b
    ensures Offset(a, size) <= Offset(b, size)
  {
    if a < b { OffsetMono(a, b - 1, size); }
  }

  lemma InBounds(k: nat, cnt: nat, size: nat)
    requires k < cnt
    ensures Offset(k, size) + size <= Offset(cnt, size)
  {
    OffsetMono(k + 1, cnt, size);
  }

  ghost predicate HoldsAt(bytes: seq<byte>, size: nat, e: seq<Elem>, k: int)
    requires 0 <= k < |e|
  {
    Offset(k, size) + size <= |bytes| && bytes[Offset(k, size)..Offset(k, size) + size] == e[k]
  }

  /** The bytes are the elements e, one after the other. */
  ghost predicate Holds(bytes: seq<byte>, size: nat, e: seq<Elem>) {
    |bytes| == Offset(|e|, size) && forall k {:trigger HoldsAt(bytes, size, e, k)} :: 0 <= k < |e| ==>
        HoldsAt(bytes, size, e, k)
  }

  ghost predicate ByteMoved(s: seq<byte>, t: seq<byte>, a: nat, b: nat, n: nat, k: int)
    requires |s| == |t| && a + n <= |s| && b + n <= |s| && 0 <= k < |s|
  {
    t[k] == if a <= k < a + n then s[k - a + b] else if b <= k < b + n then s[k - b + a] else s[k]
  }

  // The bytes a..a+n and b..b+n have changed places.
  ghost predicate Exchanged(s: seq<byte>, t: seq<byte>, a: nat, b: nat, n: nat) {
    && |s| == |t| && a + n <= |s| && b + n <= |s|
    && (forall k {:trigger ByteMoved(s, t, a, b, n, k)} :: 0 <= k < |s| ==> ByteMoved(s, t, a, b, n, k))
  }

  ghost predicate Clear(a: nat, b: nat, n: nat) {
    a + n <= b || b + n <= a
  }

  lemma ExchangedSlice(s: seq<byte>, t: seq<byte>, a: nat, b: nat, k: nat, n: nat)
    requires Exchanged(s, t, a, b, n) && Clear(a, b, n) && k + n <= |s|
    requires (k == a || Clear(k, a, n)) && (k == b || Clear(k, b, n))
    ensures t[k..k + n] == if k == a then s[b..b + n] else if k == b then s[a..a + n] else s[k..k + n]
  {
    var p, q := t[k..k + n], if k == a then s[b..b + n] else if k == b then s[a..a + n] else s[k..k + n];
    forall i | 0 <= i < n ensures p[i] == q[i] {
      assert ByteMoved(s, t, a, b, n, k + i);
    }
  }

  // One more byte of each.
  lemma ExchangedMore(s: seq<byte>, t: seq<byte>, a: nat, b: nat, i: nat, n: nat)
    requires Exchanged(s, t, a, b, i) && i < n && Clear(a, b, n) && a + n <= |s| && b + n <= |s|
    ensures Exchanged(s, t[a + i := t[b + i]][b + i := t[a + i]], a, b, i + 1)
  {
    var u := t[a + i := t[b + i]][b + i := t[a + i]];
    assert ByteMoved(s, t, a, b, i, a + i) && ByteMoved(s, t, a, b, i, b + i);
    var m := i + 1;
    forall k | 0 <= k < |s| ensures ByteMoved(s, u, a, b, m, k) { assert ByteMoved(s, t, a, b, i, k); }
  }

  // Elements do not overlap.
  lemma Elsewhere(k: nat, a: nat, size: nat)
    requires k != a
    ensures Clear(Offset(k, size), Offset(a, size), size)
  {
    if k < a { InBounds(k, a, size); } else { InBounds(a, k, size); }
  }

  // Element k begins at z; elements a and b, which begin at x and y, have changed places.
  lemma ExchangedElem(s: seq<byte>, t: seq<byte>, a: nat, b: nat, k: nat, x: nat, y: nat, z: nat, size: nat,
                      e: seq<Elem>)
    requires a < |e| && b < |e| && k < |e| && Exchanged(s, t, x, y, size) && Clear(x, y, size) && z + size <= |s|
    requires s[x..x + size] == e[a] && s[y..y + size] == e[b] && s[z..z + size] == e[k]
    requires if k == a then z == x else Clear(z, x, size)
    requires if k == b then z == y else Clear(z, y, size)
    ensures |t| == |s| && t[z..z + size] == Swapped(e, a + 1, b + 1)[k]
  {
    ExchangedSlice(s, t, x, y, z, size);
  }

  lemma ExchangedAt(s: seq<byte>, t: seq<byte>, a: nat, b: nat, k: nat, size: nat, e: seq<Elem>)
    requires a < |e| && b < |e| && k < |e| && a != b && Exchanged(s, t, Offset(a, size), Offset(b, size), size)
    requires HoldsAt(s, size, e, a) && HoldsAt(s, size, e, b) && HoldsAt(s, size, e, k)
    ensures HoldsAt(t, size, Swapped(e, a + 1, b + 1), k)
  {
    hide Exchanged, Offset, Swapped;
    Elsewhere(a, b, size);
    if k != a { Elsewhere(k, a, size); }
    if k != b { Elsewhere(k, b, size); }
    ExchangedElem(s, t, a, b, k, Offset(a, size), Offset(b, size), Offset(k, size), size, e);
  }

  lemma ExchangedElems(s: seq<byte>, t: seq<byte>, a: nat, b: nat, size: nat, e: seq<Elem>)
    requires a < |e| && b < |e| && a != b && Holds(s, size, e)
    requires Exchanged(s, t, Offset(a, size), Offset(b, size), size)
    ensures Holds(t, size, Swapped(e, a + 1, b + 1))
  {
    var n := Swapped(e, a + 1, b + 1);
    assert HoldsAt(s, size, e, a) && HoldsAt(s, size, e, b);
    forall k | 0 <= k < |n| ensures HoldsAt(t, size, n, k) {
      assert HoldsAt(s, size, e, k);
      ExchangedAt(s, t, a, b, k, size, e);
    }
  }

  // The loop of do_swap.
  method SwapBytes(bytes: array<byte>, a: nat, b: nat, size: nat)
    requires a + size <= bytes.Length && b + size <= bytes.Length && Clear(a, b, size)
    modifies bytes
    ensures Exchanged(old(bytes[..]), bytes[..], a, b, size)
  {
    ghost var s := bytes[..];
    var i := 0;
    while i < size
      invariant i <= size && Exchanged(s, bytes[..], a, b, i)
    {
      ExchangedMore(s, bytes[..], a, b, i, size);
      var t := bytes[a + i];
      bytes[a + i] := bytes[b + i];
      bytes[b + i] := t;
      i := i + 1;
    }
  }

  /** do_swap. */
  method DoSwap(bytes: array<byte>, aIdx: nat, bIdx: nat, size: nat, ghost e: seq<Elem>)
    requires Holds(bytes[..], size, e) && 1 <= aIdx <= |e| && 1 <= bIdx <= |e| && aIdx != bIdx
    modifies bytes
    ensures Holds(bytes[..], size, Swapped(e, aIdx, bIdx))
  {
    var a, b := Offset(aIdx - 1, size), Offset(bIdx - 1, size);
    assert HoldsAt(bytes[..], size, e, aIdx - 1) && HoldsAt(bytes[..], size, e, bIdx - 1);
    Elsewhere(aIdx - 1, bIdx - 1, size);
    ghost var s := bytes[..];
    SwapBytes(bytes, a, b, size);
    ExchangedElems(s, bytes[..], aIdx - 1, bIdx - 1, size, e);
  }

  // The bytes of element k.
  method Read(bytes: array<byte>, k: nat, size: nat, ghost e: seq<Elem>) returns (x: Elem)
    requires Holds(bytes[..], size, e) && k < |e|
    ensures x == e[k]
  {
    assert HoldsAt(bytes[..], size, e, k);
    x := bytes[Offset(k, size)..Offset(k, size) + size];
  }

  /** do_compare. */
  method DoCompare(bytes: array<byte>, aIdx: nat, bIdx: nat, size: nat, cmp: (Elem, Elem) -> int,
                   ghost e: seq<Elem>) returns (r: int)
    requires Holds(bytes[..], size, e) && 1 <= aIdx <= |e| && 1 <= bIdx <= |e|
    ensures r == cmp(e[aIdx - 1], e[bIdx - 1])
  {
    var a := Read(bytes, aIdx - 1, size, e);
    var b := Read(bytes, bIdx - 1, size, e);
    r := cmp(a, b);
  }

  // The greater of elements cur and other, if there is such an element.
  method Greater(bytes: array<byte>, cur: nat, other: nat, cnt: nat, size: nat, cmp: (Elem, Elem) -> int,
                 ghost e: seq<Elem>) returns (max: nat)
    requires Holds(bytes[..], size, e) && TotalPreorder(cmp) && 1 <= cur <= cnt <= |e| && 1 <= other
    ensures (max == cur || max == other) && max <= cnt && Ok(e, cmp, max, cur)
    ensures (other <= cnt ==> Ok(e, cmp, max, other))
    ensures max != cur ==> cmp(e[other - 1], e[cur - 1]) > 0
  {
    max := cur;
    if other <= cnt {
      var r := DoCompare(bytes, other, cur, size, cmp, e);
      if r > 0 {
        max := other;
      }
    }
  }

  // The greatest of an element and its children.
  method PickMax(bytes: array<byte>, i: nat, cnt: nat, size: nat, cmp: (Elem, Elem) -> int,
                 ghost e: seq<Elem>) returns (max: nat)
    requires Holds(bytes[..], size, e) && 1 <= i <= cnt <= |e| && TotalPreorder(cmp)
    ensures Greatest(e, cmp, i, max, cnt)
  {
    var left := 2 * i;
    var right := 2 * i + 1;
    var greater := Greater(bytes, i, left, cnt, size, cmp, e);
    max := Greater(bytes, greater, right, cnt, size, cmp, e);
    Through(e, cmp, max, greater, i);
    if left <= cnt { Through(e, cmp, max, greater, left); }
  }

  lemma Through(e: seq<Elem>, cmp: (Elem, Elem) -> int, a: nat, b: nat, c: nat)
    requires TotalPreorder(cmp) && 1 <= a <= |e| && 1 <= b <= |e| && 1 <= c <= |e| && Ok(e, cmp, a, b)
    requires Ok(e, cmp, b, c)
    ensures Ok(e, cmp, a, c)
  {
    assert Leq(cmp, e[c - 1], e[b - 1]) && Leq(cmp, e[b - 1], e[a - 1]);
  }

  /** heapify: element lo floats down until the elements from lo on are a heap. */
  method Heapify(bytes: array<byte>, lo: nat, cnt: nat, size: nat, cmp: (Elem, Elem) -> int,
                 ghost e: seq<Elem>) returns (ghost n: seq<Elem>)
    requires Holds(bytes[..], size, e) && 1 <= lo <= cnt <= |e| && TotalPreorder(cmp) && Floating(e, cmp, lo, lo, cnt)
    modifies bytes
    ensures Holds(bytes[..], size, n) && Rearranged(e, n, cnt) && HeapFrom(n, cmp, lo, cnt)
  {
    n := e;
    var i := lo;
    while true
      invariant lo <= i <= cnt && Rearranged(e, n, cnt) && Holds(bytes[..], size, n) && Floating(n, cmp, lo, i, cnt)
      decreases cnt - i
    {
      var max := PickMax(bytes, i, cnt, size, cmp, n);
      if max == i {
        break;
      }
      FloatStep(n, cmp, lo, i, max, cnt);
      SwapRearranges(e, n, i, max, cnt);
      DoSwap(bytes, i, max, size, n);
      n := Swapped(n, i, max);
      i := max;
    }
    FloatDone(n, cmp, lo, i, cnt);
  }

  // The loop that builds the heap.
  method BuildHeap(bytes: array<byte>, cnt: nat, size: nat, cmp: (Elem, Elem) -> int,
                   ghost e: seq<Elem>) returns (ghost n: seq<Elem>)
    requires Holds(bytes[..], size, e) && cnt == |e| && TotalPreorder(cmp)
    modifies bytes
    ensures Holds(bytes[..], size, n) && |n| == cnt && HeapFrom(n, cmp, 1, cnt) && multiset(n) == multiset(e)
  {
    n := e;
    var i := cnt / 2;
    while i > 0
      invariant 0 <= i <= cnt / 2 && |n| == cnt && HeapFrom(n, cmp, i + 1, cnt)
      invariant Holds(bytes[..], size, n) && multiset(n) == multiset(e)
    {
      HeapFloats(n, cmp, i, cnt);
      ghost var m := n;
      n := Heapify(bytes, i, cnt, size, cmp, n);
      RearrangedAll(m, n, cnt);
      i := i - 1;
    }
  }

  lemma HeapFloats(e: seq<Elem>, cmp: (Elem, Elem) -> int, i: nat, cnt: nat)
    requires 1 <= i && cnt <= |e| && HeapFrom(e, cmp, i + 1, cnt)
    ensures Floating(e, cmp, i, i, cnt)
  {
  }

  // One round of the loop that takes the heap apart.
  method RootBehind(bytes: array<byte>, i: nat, size: nat, cmp: (Elem, Elem) -> int,
                    ghost e: seq<Elem>) returns (ghost n: seq<Elem>)
    requires Holds(bytes[..], size, e) && 2 <= i <= |e| && TotalPreorder(cmp) && HeapFrom(e, cmp, 1, i)
    requires SortedFrom(e, cmp, i)
    modifies bytes
    ensures Holds(bytes[..], size, n) && |n| == |e| && multiset(n) == multiset(e)
    ensures HeapFrom(n, cmp, 1, i - 1) && SortedFrom(n, cmp, i - 1)
  {
    RootToEnd(e, cmp, i);
    SwapMultiset(e, 0, i - 1);
    DoSwap(bytes, 1, i, size, e);
    ghost var m := Swapped(e, 1, i);
    n := Heapify(bytes, 1, i - 1, size, cmp, m);
    RearrangedSorted(m, n, cmp, i - 1);
    RearrangedAll(m, n, i - 1);
  }

  /** sort: the same elements in order. */
  method Sort(bytes: array<byte>, cnt: nat, size: nat, cmp: (Elem, Elem) -> int,
              ghost e: seq<Elem>) returns (ghost n: seq<Elem>)
    requires Holds(bytes[..], size, e) && cnt == |e| && size > 0 && TotalPreorder(cmp)
    modifies bytes
    ensures Holds(bytes[..], size, n) && |n| == cnt && Sorted(n, cmp) && multiset(n) == multiset(e)
  {
    n := BuildHeap(bytes, cnt, size, cmp, e);
    var i := cnt;
    while i > 1
      invariant 0 <= i <= cnt && (cnt > 0 ==> i >= 1) && |n| == cnt
      invariant Holds(bytes[..], size, n) && multiset(n) == multiset(e)
      invariant HeapFrom(n, cmp, 1, i) && SortedFrom(n, cmp, i)
    {
      n := RootBehind(bytes, i, size, cmp, n);
      i := i - 1;
    }
  }

  // What the loop of binary_search knows: no match below lo and none from hi on.
  ghost predicate Narrowed(e: seq<Elem>, cmp: (Elem, Elem) -> int, key: Elem, lo: nat, hi: nat) {
    && lo <= hi <= |e|
    && (forall j {:trigger e[j]} :: 0 <= j < lo ==> cmp(key, e[j]) > 0)
    && (forall j {:trigger e[j]} :: hi <= j < |e| ==> cmp(key, e[j]) < 0)
  }

  /** binary_search: the byte offset of a match, if and only if there is one. */
  method BinarySearch(key: Elem, bytes: array<byte>, cnt: nat, size: nat, cmp: (Elem, Elem) -> int, ghost e: seq<Elem>)
      returns (found: bool, offset: nat, ghost k: nat)
    requires Holds(bytes[..], size, e) && cnt == |e| && size > 0 && TotalPreorder(cmp) && Sorted(e, cmp)
    ensures found ==> k < cnt && offset == Offset(k, size) && cmp(key, e[k]) == 0
    ensures !found ==> forall x :: x in e ==> cmp(key, x) != 0
  {
    hide Sorted, TotalPreorder;
    ghost var lo: nat, hi: nat := 0, cnt;
    var first, last := 0, Offset(cnt, size);
    while first < last
      invariant first == Offset(lo, size) && last == Offset(hi, size) && Narrowed(e, cmp, key, lo, hi)
      decreases hi - lo
    {
      var range := (last - first) / size;
      Halving(first, last, size, lo, hi);
      var middle := first + Offset(range / 2, size);
      ghost var m := lo + (hi - lo) / 2;
      assert HoldsAt(bytes[..], size, e, m);
      var c := cmp(key, bytes[middle..middle + size]);
      if c < 0 {
        SmallerThan(e, cmp, key, m);
        last, hi := middle, m;
      } else if c > 0 {
        GreaterThan(e, cmp, key, m);
        first, lo := middle + size, m + 1;
      } else {
        return true, middle, m;
      }
    }
    if lo < hi { InBounds(lo, hi, size); }
    found, offset, k := false, 0, 0;
  }

  lemma Halving(first: nat, last: nat, size: nat, lo: nat, hi: nat)
    requires size > 0 && first == Offset(lo, size) && last == Offset(hi, size) && first < last
    ensures lo < hi && (last - first) / size == hi - lo
    ensures first + Offset((hi - lo) / 2, size) == Offset(lo + (hi - lo) / 2, size)
  {
    if lo >= hi { OffsetMono(hi, lo, size); }
    OffsetAdd(lo, hi - lo, size);
    OffsetAdd(lo, (hi - lo) / 2, size);
    OffsetIs(hi - lo, size);
    Floor(last - first, size, hi - lo);
  }

  lemma {:induction false} OffsetAdd(a: nat, b: nat, size: nat)
    ensures Offset(a + b, size) == Offset(a, size) + Offset(b, size)
  {
    if b > 0 { OffsetAdd(a, b - 1, size); }
  }

  lemma SmallerThan(e: seq<Elem>, cmp: (Elem, Elem) -> int, key: Elem, m: nat)
    requires TotalPreorder(cmp) && Sorted(e, cmp) && m < |e| && cmp(key, e[m]) < 0
    ensures forall j {:trigger e[j]} :: m <= j < |e| ==> cmp(key, e[j]) < 0
  {
    forall j {:trigger e[j]} | m <= j < |e| ensures cmp(key, e[j]) < 0 {
      if j > m { assert InOrder(e, cmp, m, j); }
      Stays(cmp, key, e[m], e[j]);
    }
  }

  lemma Stays(cmp: (Elem, Elem) -> int, key: Elem, a: Elem, b: Elem)
    requires TotalPreorder(cmp) && cmp(key, a) < 0 && (a == b || cmp(a, b) <= 0)
    ensures cmp(key, b) < 0
  {
    var back := Leq(cmp, b, key);
    var on := Leq(cmp, a, b);
  }

  lemma GreaterThan(e: seq<Elem>, cmp: (Elem, Elem) -> int, key: Elem, m: nat)
    requires TotalPreorder(cmp) && Sorted(e, cmp) && m < |e| && cmp(key, e[m]) > 0
    ensures forall j {:trigger e[j]} :: 0 <= j <= m ==> cmp(key, e[j]) > 0
  {
    forall j {:trigger e[j]} | 0 <= j <= m ensures cmp(key, e[j]) > 0 {
      if j < m { assert InOrder(e, cmp, j, m); }
      var on := Leq(cmp, e[j], e[m]);
      var back := Leq(cmp, key, e[j]);
    }
  }

  /** Searching what was sorted: found if and only if some element matches. */
  method SortThenSearch(key: Elem, bytes: array<byte>, cnt: nat, size: nat, cmp: (Elem, Elem) -> int,
                        ghost e: seq<Elem>) returns (found: bool)
    requires Holds(bytes[..], size, e) && cnt == |e| && size > 0 && TotalPreorder(cmp)
    modifies bytes
    ensures found <==> exists x :: x in e && cmp(key, x) == 0
  {
    ghost var n := Sort(bytes, cnt, size, cmp, e);
    assert forall x :: x in n <==> x in multiset(n);
    assert forall x :: x in e <==> x in multiset(e);
    var offset; ghost var k;
    found, offset, k := BinarySearch(key, bytes, cnt, size, cmp, n);
    if found { assert n[k] in n; }
  }
}
