/** list_sort of src/lib/kernel/list.c: natural merge sort, in place on a linked list. */
module ListSort {
  import opened Sequences
  import opened KernelList
  import opened Orders

  // Elements i and j are not the wrong way round.
  ghost predicate Le<T>(s: seq<ListElem<T>>, less: (T, T) -> bool, i: int, j: int)
    requires 0 <= i < |s| && 0 <= j < |s|
  {
    !less(s[j].item, s[i].item)
  }

  ghost predicate SortedRange<T>(s: seq<ListElem<T>>, less: (T, T) -> bool, lo: nat, hi: nat)
    requires hi <= |s|
  {
    forall i, j {:trigger Le(s, less, i, j)} :: lo <= i < j < hi ==> Le(s, less, i, j)
  }

  // If elements i and j compare equal they are in the order of pos.
  ghost predicate Kept<T>(s: seq<ListElem<T>>, less: (T, T) -> bool, pos: map<ListElem<T>, nat>, i: int, j: int)
    requires 0 <= i < |s| && 0 <= j < |s|
  {
    s[i] in pos && s[j] in pos && (!less(s[i].item, s[j].item) && !less(s[j].item, s[i].item) ==> pos[s[i]] < pos[s[j]])
  }

  ghost predicate InOrder<T>(s: seq<ListElem<T>>, less: (T, T) -> bool, pos: map<ListElem<T>, nat>) {
    forall i, j {:trigger Kept(s, less, pos, i, j)} :: 0 <= i < j < |s| ==> Kept(s, less, pos, i, j)
  }

  // ---------------------------------------------------------------------------------------
  // Descents: places where a run ends.

  ghost function Descents<T>(s: seq<ListElem<T>>, less: (T, T) -> bool): nat {
    if |s| < 2 then 0
    else Descents(s[1..], less) + (if less(s[1].item, s[0].item) then 1 else 0)
  }

  /** The number of maximal nondecreasing runs. */
  ghost function Runs<T>(s: seq<ListElem<T>>, less: (T, T) -> bool): nat {
    if s == [] then 0 else Descents(s, less) + 1
  }

  ghost function Break<T>(s: seq<ListElem<T>>, t: seq<ListElem<T>>, less: (T, T) -> bool): nat {
    if s != [] && t != [] && less(t[0].item, s[|s| - 1].item) then 1 else 0
  }

  lemma {:induction false} DescentsConcat<T>(s: seq<ListElem<T>>, t: seq<ListElem<T>>, less: (T, T) -> bool)
    ensures Descents(s + t, less) == Descents(s, less) + Descents(t, less) + Break(s, t, less)
    decreases |s|
  {
    if s == [] {
      assert s + t == t;
    } else if |s| == 1 {
      assert (s + t)[1..] == t;
    } else {
      DescentsConcat(s[1..], t, less);
      assert (s + t)[1..] == s[1..] + t;
    }
  }

  lemma {:induction false} SortedNoDescents<T>(s: seq<ListElem<T>>, less: (T, T) -> bool)
    requires SortedRange(s, less, 0, |s|)
    ensures Descents(s, less) == 0
    decreases |s|
  {
    if |s| >= 2 {
      forall i, j | 0 <= i < j < |s| - 1 ensures Le(s[1..], less, i, j) { assert Le(s, less, i + 1, j + 1); }
      SortedNoDescents(s[1..], less);
      assert Le(s, less, 0, 1);
    }
  }

  lemma {:induction false} NoDescentsSorted<T(!new)>(s: seq<ListElem<T>>, less: (T, T) -> bool)
    requires StrictWeakOrder(less) && Descents(s, less) == 0
    ensures SortedRange(s, less, 0, |s|)
    decreases |s|
  {
    if |s| >= 2 {
      NoDescentsSorted(s[1..], less);
      forall i, j | 0 <= i < j < |s| ensures Le(s, less, i, j) {
        if i > 0 {
          assert Le(s[1..], less, i - 1, j - 1);
        } else if j > 1 {
          assert Le(s[1..], less, 0, j - 1);
        }
      }
    }
  }

  // ---------------------------------------------------------------------------------------
  // Merging by moving elements forward.

  // Region lo..hi: merged up to a, then what is left of the first run up to m and of the second
  // up to hi.
  ghost predicate Merging<T>(s: seq<ListElem<T>>, less: (T, T) -> bool, lo: nat, a: nat, m: nat, hi: nat) {
    && lo <= a <= m <= hi <= |s|
    && SortedRange(s, less, lo, a) && SortedRange(s, less, a, m) && SortedRange(s, less, m, hi)
    && (forall i, j {:trigger Le(s, less, i, j)} :: lo <= i < a <= j < hi ==> Le(s, less, i, j))
  }

  lemma KeepFirst<T(!new)>(s: seq<ListElem<T>>, less: (T, T) -> bool, lo: nat, a: nat, m: nat, hi: nat)
    requires StrictWeakOrder(less) && Merging(s, less, lo, a, m, hi) && a < m < hi && !less(s[m].item, s[a].item)
    ensures Merging(s, less, lo, a + 1, m, hi)
  {
    forall j | a < j < hi ensures Le(s, less, a, j) {
      if j > m { assert Le(s, less, m, j); }
    }
  }

  // The places of Moved(s, a, m, m + 1).
  lemma MovedOne<T>(s: seq<ListElem<T>>, a: nat, m: nat, i: nat)
    requires a <= m < |s| && i < |s|
    ensures |Moved(s, a, m, m + 1)| == |s|
    ensures Moved(s, a, m, m + 1)[i] == if i == a then s[m] else if a < i <= m then s[i - 1] else s[i]
  {
    MovedAt(s, a, m, m + 1, i);
  }

  lemma SmallerThanRest<T(!new)>(s: seq<ListElem<T>>, less: (T, T) -> bool, lo: nat, a: nat, m: nat, hi: nat, k: nat)
    requires StrictWeakOrder(less) && Merging(s, less, lo, a, m, hi) && a <= k < m < hi && less(s[m].item, s[a].item)
    ensures less(s[m].item, s[k].item)
  {
    if k > a { assert Le(s, less, a, k); }
  }

  lemma MoveSecondLe<T(!new)>(s: seq<ListElem<T>>, less: (T, T) -> bool, lo: nat, a: nat, m: nat, hi: nat, i: nat,
                              j: nat)
    requires StrictWeakOrder(less) && Merging(s, less, lo, a, m, hi) && a < m < hi && less(s[m].item, s[a].item)
    requires lo <= i < j < hi && (i <= a || j <= m || i > m)
    ensures |Moved(s, a, m, m + 1)| == |s| && Le(Moved(s, a, m, m + 1), less, i, j)
  {
    MovedOne(s, a, m, i);
    MovedOne(s, a, m, j);
    var i0 := if i == a then m else if a < i <= m then i - 1 else i;
    var j0 := if j == a then m else if a < j <= m then j - 1 else j;
    if i == a && j <= m {
      SmallerThanRest(s, less, lo, a, m, hi, j - 1);
    } else {
      assert Le(s, less, i0, j0);
    }
  }

  lemma MoveSecond<T(!new)>(s: seq<ListElem<T>>, less: (T, T) -> bool, lo: nat, a: nat, m: nat, hi: nat)
    requires StrictWeakOrder(less) && Merging(s, less, lo, a, m, hi) && a < m < hi && less(s[m].item, s[a].item)
    ensures Merging(Moved(s, a, m, m + 1), less, lo, a + 1, m + 1, hi)
  {
    var n := Moved(s, a, m, m + 1);
    assert |n| == |s|;
    forall i, j | lo <= i < j < hi && (i <= a || j <= m || i > m) ensures Le(n, less, i, j) {
      MoveSecondLe(s, less, lo, a, m, hi, i, j);
    }
  }

  lemma Merged<T>(s: seq<ListElem<T>>, less: (T, T) -> bool, lo: nat, a: nat, m: nat, hi: nat)
    requires Merging(s, less, lo, a, m, hi) && (a == m || m == hi)
    ensures SortedRange(s, less, lo, hi)
  {
  }

  // Moving an element ahead of strictly larger ones keeps the order of equal elements.
  lemma MoveKeepsOrder<T(!new)>(s: seq<ListElem<T>>, less: (T, T) -> bool, pos: map<ListElem<T>, nat>, a: nat, m: nat)
    requires StrictWeakOrder(less) && a <= m < |s| && InOrder(s, less, pos)
    requires forall k :: a <= k < m ==> less(s[m].item, s[k].item)
    ensures InOrder(Moved(s, a, m, m + 1), less, pos)
  {
    var n := Moved(s, a, m, m + 1);
    assert |n| == |s|;
    forall i, j | 0 <= i < j < |s| ensures Kept(n, less, pos, i, j) {
      MovedOne(s, a, m, i);
      MovedOne(s, a, m, j);
      var i0 := if i == a then m else if a < i <= m then i - 1 else i;
      var j0 := if j == a then m else if a < j <= m then j - 1 else j;
      if i0 < j0 { assert Kept(s, less, pos, i0, j0); } else { assert Kept(s, less, pos, j0, i0); }
    }
  }

  // ---------------------------------------------------------------------------------------
  // In place.

  // Moving nodes moves the elements between the sentinels.
  lemma MovedElems<T>(nodes: seq<ListElem<T>>, b: nat, f: nat, l: nat)
    requires 1 <= b <= f <= l < |nodes|
    ensures Moved(nodes, b, f, l)[1..|nodes| - 1] == Moved(nodes[1..|nodes| - 1], b - 1, f - 1, l - 1)
  {
    var e := nodes[1..|nodes| - 1];
    var p, q := Moved(nodes, b, f, l), Moved(e, b - 1, f - 1, l - 1);
    assert |p| == |nodes| && |q| == |e|;
    forall i | 0 <= i < |e| ensures p[1..|nodes| - 1][i] == q[i] {
      MovedAt(nodes, b, f, l, i + 1);
      MovedAt(e, b - 1, f - 1, l - 1, i);
    }
  }

  // The node that stands for place k of the elements, the tail for the end.
  ghost predicate At<T>(list: List<T>, k: int, e: ListElem<T>)
    reads list
  {
    0 <= k < |list.nodes| - 1 && list.nodes[k + 1] == e
  }

  /** list_next. */
  method Next<T>(list: List<T>, e: ListElem<T>, ghost k: nat) returns (r: ListElem<T>)
    requires list.Valid() && At(list, k, e) && k < |list.Elems()|
    ensures At(list, k + 1, r)
  {
    assert Edge(list.nodes, k + 1);
    r := e.next;
  }

  /** find_end_of_run: the run from place k on is nondecreasing and ends where it must. */
  method FindEndOfRun<T(!new)>(list: List<T>, a: ListElem<T>, less: (T, T) -> bool,
                               ghost k: nat) returns (r: ListElem<T>, ghost j: nat)
    requires list.Valid() && StrictWeakOrder(less) && k < |list.Elems()| && At(list, k, a)
    ensures k < j <= |list.Elems()| && At(list, j, r)
    ensures SortedRange(list.Elems(), less, k, j)
    ensures j < |list.Elems()| ==> less(list.Elems()[j].item, list.Elems()[j - 1].item)
  {
    r := Next(list, a, k);
    j := k + 1;
    assert Edge(list.nodes, j);
    while r != list.tail && !less(r.item, r.prev.item)
      invariant k < j <= |list.Elems()| && At(list, j, r)
      invariant SortedRange(list.Elems(), less, k, j)
      invariant r.prev == list.Elems()[j - 1]
      decreases |list.Elems()| - j
    {
      assert list.Elems()[j] == r;
      RunGrows(list.Elems(), less, k, j);
      r := Next(list, r, j);
      j := j + 1;
      assert Edge(list.nodes, j);
    }
    if j < |list.Elems()| {
      assert Differ(list.nodes, j + 1, |list.nodes| - 1);
    }
  }

  lemma RunGrows<T(!new)>(s: seq<ListElem<T>>, less: (T, T) -> bool, k: nat, j: nat)
    requires StrictWeakOrder(less) && k < j < |s| && SortedRange(s, less, k, j) && !less(s[j].item, s[j - 1].item)
    ensures SortedRange(s, less, k, j + 1)
  {
    forall i | k <= i < j ensures Le(s, less, i, j) {
      if i < j - 1 { assert Le(s, less, i, j - 1); }
    }
  }

  lemma MovedSame<T>(s: seq<T>, b: nat, f: nat, l: nat)
    requires b <= f <= l <= |s|
    ensures multiset(Moved(s, b, f, l)) == multiset(s) && |Moved(s, b, f, l)| == |s|
  {
    MovedIs(s, b, f, l);
    assert s == s[..b] + s[b..f] + s[f..l] + s[l..];
  }

  lemma OneMoved<T>(nodes: seq<ListElem<T>>, n: seq<ListElem<T>>, a: nat, m: nat, hi: nat)
    requires a < m < hi < |nodes| - 1 && n == Moved(nodes, a + 1, m + 1, m + 2)
    ensures |n| == |nodes| && n[a + 2] == nodes[a + 1] && n[m + 2] == nodes[m + 2] && n[hi + 1] == nodes[hi + 1]
    ensures n[1..|nodes| - 1] == Moved(nodes[1..|nodes| - 1], a, m, m + 1)
  {
    MovedElems(nodes, a + 1, m + 1, m + 2);
    MovedAt(nodes, a + 1, m + 1, m + 2, a + 2);
    MovedAt(nodes, a + 1, m + 1, m + 2, m + 2);
    MovedAt(nodes, a + 1, m + 1, m + 2, hi + 1);
  }

  lemma MovedInside<T>(s: seq<T>, lo: nat, a: nat, m: nat, hi: nat)
    requires lo <= a <= m < hi <= |s|
    ensures var n := Moved(s, a, m, m + 1); |n| == |s| && n[..lo] == s[..lo] && n[hi..] == s[hi..]
  {
    var n := Moved(s, a, m, m + 1);
    assert |n| == |s|;
    forall i | 0 <= i < lo || hi <= i < |s| ensures n[i] == s[i] { MovedAt(s, a, m, m + 1, i); }
  }

  // One splice of inplace_merge: the element at place m goes to place a.
  method MoveOne<T>(list: List<T>, a0: ListElem<T>, a1b0: ListElem<T>, ghost a: nat, ghost m: nat,
                    ghost hi: nat) returns (r: ListElem<T>)
    requires list.Valid() && a < m < hi <= |list.Elems()| && At(list, a, a0) && At(list, m, a1b0)
    modifies list`nodes, list.repr
    ensures list.Valid() && |list.nodes| == old(|list.nodes|)
    ensures At(list, a + 1, a0) && At(list, m + 1, r) && At(list, hi, old(list.nodes)[hi + 1])
    ensures list.Elems() == Moved(old(list.Elems()), a, m, m + 1)
  {
    hide NoDup, Moved;
    ghost var nodes := list.nodes;
    r := Next(list, a1b0, m);
    assert Edge(list.nodes, m + 1);
    list.Splice(a0, r.prev, r, a + 1, m + 1, m + 2);
    OneMoved(nodes, list.nodes, a, m, hi);
  }

  // How far inplace_merge has come, relative to the elements e0 at its start.
  ghost predicate Progress<T>(e0: seq<ListElem<T>>, e: seq<ListElem<T>>, less: (T, T) -> bool,
                              pos: map<ListElem<T>, nat>,
                              lo: nat, a: nat, m: nat, hi: nat) {
    && Merging(e, less, lo, a, m, hi) && InOrder(e, less, pos)
    && |e| == |e0| && multiset(e) == multiset(e0) && e[..lo] == e0[..lo] && e[hi..] == e0[hi..]
  }

  lemma ProgressMove<T(!new)>(e0: seq<ListElem<T>>, e: seq<ListElem<T>>, less: (T, T) -> bool,
                              pos: map<ListElem<T>, nat>,
                              lo: nat, a: nat, m: nat, hi: nat)
    requires StrictWeakOrder(less) && Progress(e0, e, less, pos, lo, a, m, hi) && a < m < hi
    requires less(e[m].item, e[a].item)
    ensures Progress(e0, Moved(e, a, m, m + 1), less, pos, lo, a + 1, m + 1, hi)
  {
    MoveSecond(e, less, lo, a, m, hi);
    forall k | a <= k < m ensures less(e[m].item, e[k].item) { SmallerThanRest(e, less, lo, a, m, hi, k); }
    MoveKeepsOrder(e, less, pos, a, m);
    MovedSame(e, a, m, m + 1);
    MovedInside(e, lo, a, m, hi);
  }

  lemma SamePlace<T>(list: List<T>, a: nat, x: ListElem<T>, m: nat, y: ListElem<T>)
    requires list.Valid() && At(list, a, x) && At(list, m, y)
    ensures x == y <==> a == m
  {
    if a < m { assert Differ(list.nodes, a + 1, m + 1); }
    if m < a { assert Differ(list.nodes, m + 1, a + 1); }
  }

  // One round of the loop of inplace_merge.
  method MergeStep<T(!new)>(list: List<T>, a0: ListElem<T>, a1b0: ListElem<T>, less: (T, T) -> bool,
                            ghost e0: seq<ListElem<T>>,
                            ghost pos: map<ListElem<T>, nat>, ghost lo: nat, ghost a: nat, ghost m: nat, ghost hi: nat)
      returns (a0': ListElem<T>, a1b0': ListElem<T>, ghost m': nat)
    requires list.Valid() && StrictWeakOrder(less) && Progress(e0, list.Elems(), less, pos, lo, a, m, hi)
    requires a < m < hi && At(list, a, a0) && At(list, m, a1b0)
    modifies list`nodes, list.repr
    ensures list.Valid() && |list.nodes| == old(|list.nodes|) && (m' == m || m' == m + 1)
    ensures Progress(e0, list.Elems(), less, pos, lo, a + 1, m', hi)
    ensures At(list, a + 1, a0') && At(list, m', a1b0') && At(list, hi, old(list.nodes)[hi + 1])
  {
    hide NoDup, Mirrored, Moved, InOrder, StrictWeakOrder;
    assert list.Elems()[a] == a0 && list.Elems()[m] == a1b0;
    a0', a1b0', m' := a0, a1b0, m;
    if !less(a1b0.item, a0.item) {
      KeepFirst(list.Elems(), less, lo, a, m, hi);
      a0' := Next(list, a0, a);
    } else {
      ProgressMove(e0, list.Elems(), less, pos, lo, a, m, hi);
      a1b0' := MoveOne(list, a0, a1b0, a, m, hi);
      m' := m + 1;
    }
  }

  /** inplace_merge: the two adjacent runs lo..m0 and m0..hi become one, equal elements keep their
      order, and nothing outside lo..hi moves. */
  method InplaceMerge<T(!new)>(list: List<T>, first: ListElem<T>, second: ListElem<T>, b1: ListElem<T>,
                               less: (T, T) -> bool,
                               ghost lo: nat, ghost m0: nat, ghost hi: nat, ghost pos: map<ListElem<T>, nat>)
    requires list.Valid() && StrictWeakOrder(less) && InOrder(list.Elems(), less, pos)
    requires lo <= m0 <= hi <= |list.Elems()| && SortedRange(list.Elems(), less, lo, m0)
    requires SortedRange(list.Elems(), less, m0, hi)
    requires At(list, lo, first) && At(list, m0, second) && At(list, hi, b1)
    modifies list`nodes, list.repr
    ensures list.Valid() && Progress(old(list.Elems()), list.Elems(), less, pos, lo, hi, hi, hi) && At(list, hi, b1)
  {
    MergeLoop(list, first, second, b1, less, list.Elems(), pos, lo, m0, hi);
  }

  method MergeLoop<T(!new)>(list: List<T>, first: ListElem<T>, second: ListElem<T>, b1: ListElem<T>,
                            less: (T, T) -> bool, ghost e0: seq<ListElem<T>>,
                            ghost pos: map<ListElem<T>, nat>, ghost lo: nat, ghost m0: nat, ghost hi: nat)
    requires list.Valid() && StrictWeakOrder(less) && Progress(e0, list.Elems(), less, pos, lo, lo, m0, hi)
    requires At(list, lo, first) && At(list, m0, second) && At(list, hi, b1)
    modifies list`nodes, list.repr
    ensures list.Valid() && Progress(e0, list.Elems(), less, pos, lo, hi, hi, hi) && At(list, hi, b1)
  {
    var a0, a1b0 := first, second;
    ghost var a: nat, m: nat := lo, m0;
    while a0 != a1b0 && a1b0 != b1
      invariant list.Valid() && Progress(e0, list.Elems(), less, pos, lo, a, m, hi)
      invariant At(list, a, a0) && At(list, m, a1b0) && At(list, hi, b1)
      decreases hi - a
    {
      SamePlace(list, a, a0, m, a1b0);
      SamePlace(list, m, a1b0, hi, b1);
      a0, a1b0, m := MergeStep(list, a0, a1b0, less, e0, pos, lo, a, m, hi);
      a := a + 1;
    }
    SamePlace(list, a, a0, m, a1b0);
    SamePlace(list, m, a1b0, hi, b1);
    ProgressDone(e0, list.Elems(), less, pos, lo, a, m, hi);
  }

  lemma ProgressDone<T>(e0: seq<ListElem<T>>, e: seq<ListElem<T>>, less: (T, T) -> bool, pos: map<ListElem<T>, nat>,
                        lo: nat, a: nat, m: nat, hi: nat)
    requires Progress(e0, e, less, pos, lo, a, m, hi) && (a == m || m == hi)
    ensures Progress(e0, e, less, pos, lo, hi, hi, hi)
  {
    Merged(e, less, lo, a, m, hi);
  }

  // ---------------------------------------------------------------------------------------
  // A pass over the list.

  lemma SortedSlice<T>(s: seq<ListElem<T>>, less: (T, T) -> bool, p: nat, k: nat)
    requires p <= k <= |s| && SortedRange(s, less, p, k)
    ensures Descents(s[p..k], less) == 0
  {
    var t := s[p..k];
    forall i, j | 0 <= i < j < |t| ensures Le(t, less, i, j) { assert Le(s, less, i + p, j + p); }
    SortedNoDescents(t, less);
  }

  // A maximal run from p to j is one run of what is left.
  lemma FirstRun<T>(s: seq<ListElem<T>>, less: (T, T) -> bool, p: nat, j: nat)
    requires p < j <= |s| && SortedRange(s, less, p, j) && (j < |s| ==> less(s[j].item, s[j - 1].item))
    ensures Runs(s[p..], less) == 1 + Runs(s[j..], less)
  {
    SortedSlice(s, less, p, j);
    DescentsConcat(s[p..j], s[j..], less);
    assert s[p..] == s[p..j] + s[j..];
  }

  lemma OneMoreRun<T>(s: seq<ListElem<T>>, less: (T, T) -> bool, p: nat, k: nat)
    requires p < k <= |s| && SortedRange(s, less, p, k)
    ensures Runs(s[..k], less) <= Runs(s[..p], less) + 1
  {
    SortedSlice(s, less, p, k);
    DescentsConcat(s[..p], s[p..k], less);
    assert s[..k] == s[..p] + s[p..k];
  }

  // What a pass has done up to place p of the elements s1 it started with.
  ghost predicate Passed<T>(s1: seq<ListElem<T>>, s: seq<ListElem<T>>, less: (T, T) -> bool,
                            pos: map<ListElem<T>, nat>, p: nat, cnt: nat) {
    && |s| == |s1| && p <= |s| && multiset(s) == multiset(s1) && InOrder(s, less, pos) && s[p..] == s1[p..]
    && Runs(s[..p], less) <= cnt && Runs(s1, less) == 2 * cnt + Runs(s1[p..], less)
  }

  lemma PassBegins<T>(s: seq<ListElem<T>>, less: (T, T) -> bool, pos: map<ListElem<T>, nat>)
    requires InOrder(s, less, pos)
    ensures Passed(s, s, less, pos, 0, 0)
  {
    assert s[0..] == s;
  }

  lemma SuffixSame<T>(s: seq<T>, t: seq<T>, p: nat, k: nat)
    requires p <= k <= |s| == |t| && s[p..] == t[p..]
    ensures s[k..] == t[k..]
  {
    assert s[k..] == s[p..][k - p..] && t[k..] == t[p..][k - p..];
  }

  // The last run has no partner.
  lemma LoneRun<T>(s1: seq<ListElem<T>>, s: seq<ListElem<T>>, less: (T, T) -> bool, pos: map<ListElem<T>, nat>,
                   p: nat, cnt: nat)
    requires Passed(s1, s, less, pos, p, cnt) && p < |s| && SortedRange(s, less, p, |s|)
    ensures Runs(s, less) <= cnt + 1 && Runs(s1, less) == 2 * (cnt + 1) - 1
  {
    OneMoreRun(s, less, p, |s|);
    FirstRun(s, less, p, |s|);
    assert s[..|s|] == s && s[|s|..] == [];
  }

  // Runs p..j and j..k of s were merged into one run of n.
  lemma TwoRuns<T>(s1: seq<ListElem<T>>, s: seq<ListElem<T>>, n: seq<ListElem<T>>, less: (T, T) -> bool,
                   pos: map<ListElem<T>, nat>,
                   p: nat, j: nat, k: nat, cnt: nat)
    requires Passed(s1, s, less, pos, p, cnt) && p < j < k <= |s|
    requires SortedRange(s, less, p, j) && less(s[j].item, s[j - 1].item)
    requires SortedRange(s, less, j, k) && (k < |s| ==> less(s[k].item, s[k - 1].item))
    requires Progress(s, n, less, pos, p, k, k, k)
    ensures Passed(s1, n, less, pos, k, cnt + 1)
  {
    FirstRun(s, less, p, j);
    FirstRun(s, less, j, k);
    SuffixSame(s, s1, p, k);
    OneMoreRun(n, less, p, k);
  }

  lemma PassEnds<T>(s1: seq<ListElem<T>>, s: seq<ListElem<T>>, less: (T, T) -> bool, pos: map<ListElem<T>, nat>,
                    cnt: nat)
    requires Passed(s1, s, less, pos, |s|, cnt)
    ensures Runs(s, less) <= cnt && Runs(s1, less) == 2 * cnt
  {
    assert s[..|s|] == s && s1[|s|..] == [];
  }

  // One round of the inner loop, from place p; more is false when the last run had no partner.
  method PassRound<T(!new)>(list: List<T>, a0: ListElem<T>, less: (T, T) -> bool, ghost pos: map<ListElem<T>, nat>,
                            ghost s1: seq<ListElem<T>>, ghost p: nat, ghost cnt: nat)
      returns (more: bool, b1: ListElem<T>, ghost k: nat)
    requires list.Valid() && StrictWeakOrder(less) && p < |list.Elems()| && At(list, p, a0)
    requires Passed(s1, list.Elems(), less, pos, p, cnt)
    modifies list`nodes, list.repr
    ensures list.Valid() && |list.nodes| == old(|list.nodes|)
    ensures more ==> p < k <= |list.Elems()| && At(list, k, b1) && Passed(s1, list.Elems(), less, pos, k, cnt + 1)
    ensures !more ==> list.Elems() == old(list.Elems()) && SortedRange(list.Elems(), less, p, |list.Elems()|)
  {
    ghost var s := list.Elems();
    b1, k := a0, p;
    var a1b0; ghost var j;
    a1b0, j := FindEndOfRun(list, a0, less, p);
    SamePlace(list, j, a1b0, |list.Elems()|, list.tail);
    more := a1b0 != list.tail;
    if more {
      b1, k := FindEndOfRun(list, a1b0, less, j);
      InplaceMerge(list, a0, a1b0, b1, less, p, j, k, pos);
      TwoRuns(s1, s, list.Elems(), less, pos, p, j, k, cnt);
    }
  }

  /** One pass of list_sort: r maximal runs become at most ceil(r / 2), and cnt is that bound. */
  method MergePass<T(!new)>(list: List<T>, less: (T, T) -> bool, ghost pos: map<ListElem<T>, nat>) returns (cnt: nat)
    requires list.Valid() && StrictWeakOrder(less) && InOrder(list.Elems(), less, pos)
    modifies list`nodes, list.repr
    ensures list.Valid() && |list.nodes| == old(|list.nodes|)
    ensures multiset(list.Elems()) == multiset(old(list.Elems())) && InOrder(list.Elems(), less, pos)
    ensures Runs(list.Elems(), less) <= cnt
    ensures Runs(old(list.Elems()), less) == 2 * cnt || Runs(old(list.Elems()), less) == 2 * cnt - 1
  {
    ghost var s1 := list.Elems();
    PassBegins(s1, less, pos);
    cnt := 0;
    ghost var p: nat := 0;
    assert Edge(list.nodes, 0);
    var a0: ListElem<T> := list.head.next;
    while a0 != list.tail
      invariant list.Valid() && |list.nodes| == old(|list.nodes|) && At(list, p, a0)
      invariant Passed(s1, list.Elems(), less, pos, p, cnt)
      decreases |list.Elems()| - p
    {
      SamePlace(list, p, a0, |list.Elems()|, list.tail);
      var more, b1; ghost var k;
      more, b1, k := PassRound(list, a0, less, pos, s1, p, cnt);
      if !more {
        LoneRun(s1, list.Elems(), less, pos, p, cnt);
        cnt := cnt + 1;
        return;
      }
      cnt := cnt + 1;
      a0, p := b1, k;
    }
    SamePlace(list, p, a0, |list.Elems()|, list.tail);
    PassEnds(s1, list.Elems(), less, pos, cnt);
  }

  // ---------------------------------------------------------------------------------------
  // The sort.

  ghost function Place<T>(s: seq<ListElem<T>>, e: ListElem<T>): (i: nat)
    requires e in s
    ensures i < |s| && s[i] == e
  {
    var i :| 0 <= i < |s| && s[i] == e;
    i
  }

  // The place of every element in s.
  ghost function Places<T>(s: seq<ListElem<T>>): map<ListElem<T>, nat> {
    map e | e in s :: Place(s, e)
  }

  lemma OwnOrder<T>(s: seq<ListElem<T>>, less: (T, T) -> bool)
    requires Distinct(s)
    ensures InOrder(s, less, Places(s))
  {
    forall i, j | 0 <= i < j < |s| ensures Kept(s, less, Places(s), i, j) {
    }
  }

  /** list_sort: the same nodes, sorted; elements that compare equal keep their order. */
  method Sort<T(!new)>(list: List<T>, less: (T, T) -> bool)
    requires list.Valid() && StrictWeakOrder(less)
    modifies list`nodes, list.repr
    ensures list.Valid()
    ensures multiset(list.Elems()) == multiset(old(list.Elems()))
    ensures SortedRange(list.Elems(), less, 0, |list.Elems()|)
    ensures InOrder(list.Elems(), less, Places(old(list.Elems())))
  {
    NoDupIsDistinct(list.nodes);
    OwnOrder(list.Elems(), less);
    ghost var pos := Places(list.Elems());
    var cnt := MergePass(list, less, pos);
    while cnt > 1
      invariant list.Valid() && multiset(list.Elems()) == multiset(old(list.Elems()))
      invariant InOrder(list.Elems(), less, pos)
      invariant Runs(list.Elems(), less) <= cnt
      decreases cnt
    {
      cnt := MergePass(list, less, pos);
    }
    NoDescentsSorted(list.Elems(), less);
  }
}
