/** The order of a heap as src/lib/stdlib.c keeps it: element p, counted from 1, is not below
    elements 2p and 2p + 1. */
module Heap {

  predicate Leq<T>(cmp: (T, T) -> int, a: T, b: T) {
    cmp(a, b) <= 0
  }

  // A comparison function as sort and binary_search demand it.
  ghost predicate TotalPreorder<T(!new)>(cmp: (T, T) -> int) {
    && (forall a, b :: cmp(a, b) < 0 <==> cmp(b, a) > 0)
    && (forall a, b, c {:trigger Leq(cmp, a, b), Leq(cmp, b, c)} :: Leq(cmp, a, b) && Leq(cmp, b, c) ==> Leq(cmp, a, c))
  }

  // Element p is not below element c.
  ghost predicate Ok<T>(e: seq<T>, cmp: (T, T) -> int, p: int, c: int)
    requires 1 <= p <= |e| && 1 <= c <= |e|
  {
    cmp(e[p - 1], e[c - 1]) >= 0
  }

  ghost predicate IsChild(p: int, c: int) {
    c == 2 * p || c == 2 * p + 1
  }

  ghost predicate HeapFrom<T>(e: seq<T>, cmp: (T, T) -> int, lo: nat, cnt: nat)
    requires 1 <= lo && cnt <= |e|
  {
    forall p, c {:trigger Ok(e, cmp, p, c)} :: lo <= p && IsChild(p, c) && c <= cnt ==> Ok(e, cmp, p, c)
  }

  // A heap but for element i, which may be below its children but not above its parent.
  ghost predicate Floating<T>(e: seq<T>, cmp: (T, T) -> int, lo: nat, i: nat, cnt: nat)
    requires 1 <= lo && cnt <= |e|
  {
    && (forall p, c {:trigger Ok(e, cmp, p, c)} :: lo <= p && p != i && IsChild(p, c) && c <= cnt ==> Ok(e, cmp, p, c))
    && (forall g, c {:trigger Ok(e, cmp, g, c)} :: lo <= g && IsChild(g, i) && IsChild(i, c) && c <= cnt ==>
          Ok(e, cmp, g, c))
  }

  ghost function Swapped<T>(e: seq<T>, a: nat, b: nat): seq<T>
    requires 1 <= a <= |e| && 1 <= b <= |e|
  {
    e[a - 1 := e[b - 1]][b - 1 := e[a - 1]]
  }

  // max is the place of the greatest among element i and its children.
  ghost predicate Greatest<T>(e: seq<T>, cmp: (T, T) -> int, i: nat, max: nat, cnt: nat)
    requires 1 <= i <= cnt <= |e|
  {
    && (max == i || IsChild(i, max)) && max <= cnt && Ok(e, cmp, max, i)
    && (forall c {:trigger Ok(e, cmp, max, c)} :: IsChild(i, c) && c <= cnt ==> Ok(e, cmp, max, c))
  }

  /** One step of heapify. */
  lemma FloatStep<T>(e: seq<T>, cmp: (T, T) -> int, lo: nat, i: nat, max: nat, cnt: nat)
    requires 1 <= lo <= i <= cnt <= |e| && Floating(e, cmp, lo, i, cnt) && Greatest(e, cmp, i, max, cnt) && max != i
    ensures Floating(Swapped(e, i, max), cmp, lo, max, cnt)
  {
    var n := Swapped(e, i, max);
    forall p, c | lo <= p && p != max && IsChild(p, c) && c <= cnt ensures Ok(n, cmp, p, c) {
      if p == i {
        assert Ok(e, cmp, max, c);
      } else if c == i {
        assert Ok(e, cmp, p, max);
      } else {
        assert Ok(e, cmp, p, c);
      }
    }
    forall g, c | lo <= g && IsChild(g, max) && IsChild(max, c) && c <= cnt ensures Ok(n, cmp, g, c) {
      assert Ok(e, cmp, max, c);
    }
  }

  lemma FloatDone<T>(e: seq<T>, cmp: (T, T) -> int, lo: nat, i: nat, cnt: nat)
    requires 1 <= lo <= i <= cnt <= |e| && Floating(e, cmp, lo, i, cnt) && Greatest(e, cmp, i, i, cnt)
    ensures HeapFrom(e, cmp, lo, cnt)
  {
    forall p, c | lo <= p && IsChild(p, c) && c <= cnt ensures Ok(e, cmp, p, c) {}
  }

  /** The root of a heap is not below any element. */
  lemma {:induction false} RootIsGreatest<T(!new)>(e: seq<T>, cmp: (T, T) -> int, cnt: nat, k: nat)
    requires TotalPreorder(cmp) && 1 <= k <= cnt <= |e| && HeapFrom(e, cmp, 1, cnt)
    ensures cmp(e[k - 1], e[0]) <= 0
    decreases k
  {
    if k == 1 {
      assert cmp(e[0], e[0]) <= 0;
    } else {
      var p := k / 2;
      RootIsGreatest(e, cmp, cnt, p);
      assert Ok(e, cmp, p, k);
      assert Leq(cmp, e[k - 1], e[p - 1]) && Leq(cmp, e[p - 1], e[0]);
    }
  }

  // ---------------------------------------------------------------------------------------
  // Rearranging.

  // The first cnt elements in another order, the rest as it was.
  ghost predicate Rearranged<T>(e0: seq<T>, e: seq<T>, cnt: nat) {
    cnt <= |e| == |e0| && multiset(e[..cnt]) == multiset(e0[..cnt]) && e[cnt..] == e0[cnt..]
  }

  lemma SwapRearranges<T>(e0: seq<T>, e: seq<T>, a: nat, b: nat, cnt: nat)
    requires Rearranged(e0, e, cnt) && 1 <= a <= cnt && 1 <= b <= cnt
    ensures Rearranged(e0, Swapped(e, a, b), cnt)
  {
    var n := Swapped(e, a, b);
    assert n[..cnt] == e[..cnt][a - 1 := e[b - 1]][b - 1 := e[a - 1]];
    SwapMultiset(e[..cnt], a - 1, b - 1);
    assert n[cnt..] == e[cnt..];
  }

  lemma SwapMultiset<T>(s: seq<T>, a: nat, b: nat)
    requires a < |s| && b < |s|
    ensures multiset(s[a := s[b]][b := s[a]]) == multiset(s)
  {
  }

  lemma RearrangedAll<T>(e0: seq<T>, e: seq<T>, cnt: nat)
    requires Rearranged(e0, e, cnt)
    ensures multiset(e) == multiset(e0)
  {
    assert e == e[..cnt] + e[cnt..] && e0 == e0[..cnt] + e0[cnt..];
  }

  // ---------------------------------------------------------------------------------------
  // Sorted sequences.

  ghost predicate InOrder<T>(e: seq<T>, cmp: (T, T) -> int, i: int, j: int)
    requires 0 <= i < |e| && 0 <= j < |e|
  {
    cmp(e[i], e[j]) <= 0
  }

  // From place k on every element is in order with all elements before it.
  ghost predicate SortedFrom<T>(e: seq<T>, cmp: (T, T) -> int, k: int) {
    forall i, j {:trigger InOrder(e, cmp, i, j)} :: 0 <= i < j < |e| && k <= j ==> InOrder(e, cmp, i, j)
  }

  ghost predicate Sorted<T>(e: seq<T>, cmp: (T, T) -> int) {
    SortedFrom(e, cmp, 0)
  }

  // Rearranging the elements before place k keeps it so.
  lemma RearrangedSorted<T>(e0: seq<T>, e: seq<T>, cmp: (T, T) -> int, k: nat)
    requires Rearranged(e0, e, k) && SortedFrom(e0, cmp, k)
    ensures SortedFrom(e, cmp, k)
  {
    forall i, j | 0 <= i < j < |e| && k <= j ensures InOrder(e, cmp, i, j) {
      assert e[j] == e[k..][j - k] == e0[j];
      if i < k {
        assert e[i] in multiset(e[..k]);
        assert e[i] in e0[..k];
        var m :| 0 <= m < k && e0[..k][m] == e[i];
        assert InOrder(e0, cmp, m, j);
      } else {
        assert e[i] == e[k..][i - k] == e0[i];
        assert InOrder(e0, cmp, i, j);
      }
    }
  }

  // The root goes behind the rest of the heap.
  lemma RootToEnd<T(!new)>(e: seq<T>, cmp: (T, T) -> int, i: nat)
    requires TotalPreorder(cmp) && 2 <= i <= |e| && HeapFrom(e, cmp, 1, i) && SortedFrom(e, cmp, i)
    ensures var n := Swapped(e, 1, i); SortedFrom(n, cmp, i - 1) && Floating(n, cmp, 1, 1, i - 1)
  {
    var n := Swapped(e, 1, i);
    SwapRearranges(e, e, 1, i, i);
    RearrangedSorted(e, n, cmp, i);
    forall a, b | 0 <= a < b < |n| && i - 1 <= b ensures InOrder(n, cmp, a, b) {
      if b == i - 1 { RootIsGreatest(e, cmp, i, if a == 0 then i else a + 1); } else { assert InOrder(n, cmp, a, b); }
    }
    forall p, c | 1 <= p && p != 1 && IsChild(p, c) && c <= i - 1 ensures Ok(n, cmp, p, c) { assert Ok(e, cmp, p, c); }
  }
}
