/** The arithmetic of the fair scheduler of src/threads/scheduler.c: weights, time slices and
    virtual run times. */
module Cfs {
  import opened Numbers
  import opened Sequences

  const PRIO_TO_WEIGHT: seq<nat> := [
    88761, 71755, 56483, 46273, 36291, 29154, 23254, 18705, 14949, 11916,
    9548, 7620, 6100, 4904, 3906, 3121, 2501, 1991, 1586, 1277,
    1024, 820, 655, 526, 423, 335, 272, 215, 172, 137,
    110, 87, 70, 56, 45, 36, 29, 23, 18, 15]

  const NANOS := 4000000

  predicate NiceOk(nice: int) { -20 <= nice <= 19 }

  lemma TableSize()
    ensures |PRIO_TO_WEIGHT| == 40
  {
  }

  /** prio_to_weight for a nice value. */
  function Weight(nice: int): (w: nat)
    requires NiceOk(nice)
    ensures w >= 15
  {
    TableSize();
    LeastWeight(nice + 20);
    PRIO_TO_WEIGHT[nice + 20]
  }

  lemma LeastWeight(i: nat)
    requires i < 40
    ensures |PRIO_TO_WEIGHT| == 40 && PRIO_TO_WEIGHT[i] >= 15
  {
  }

  lemma DefaultWeight()
    ensures Weight(0) == 1024
  {
  }

  /** Each step of niceness costs weight, about a fifth of it: from 88761 down to 15. */
  lemma NicerIsLighter(v: int, w: int)
    requires NiceOk(v) && NiceOk(w) && v < w
    ensures Weight(v) > Weight(w)
    ensures w == v + 1 ==> 9 * Weight(w) < 8 * Weight(v) && 4 * Weight(v) < 6 * Weight(w)
    ensures Weight(-20) == 88761 && Weight(19) == 15
    decreases w - v
  {
    Neighbours(v);
    if v + 1 < w { NicerIsLighter(v + 1, w); }
  }

  lemma Neighbours(v: int)
    requires -20 <= v < 19
    ensures Weight(v) > Weight(v + 1) && 9 * Weight(v + 1) < 8 * Weight(v) && 4 * Weight(v) < 6 * Weight(v + 1)
    ensures Weight(-20) == 88761 && Weight(19) == 15
  {
    if v < 0 { Favoured(v); } else { Unfavoured(v); }
  }

  lemma Favoured(v: int)
    requires -20 <= v < 0
    ensures Weight(v) > Weight(v + 1) && 9 * Weight(v + 1) < 8 * Weight(v) && 4 * Weight(v) < 6 * Weight(v + 1)
  {
  }

  lemma Unfavoured(v: int)
    requires 0 <= v < 19
    ensures Weight(v) > Weight(v + 1) && 9 * Weight(v + 1) < 8 * Weight(v) && 4 * Weight(v) < 6 * Weight(v + 1)
  {
  }

  /** The weight of several threads together. */
  ghost function Total(ws: seq<nat>): nat {
    if ws == [] then 0 else Total(ws[..|ws| - 1]) + ws[|ws| - 1]
  }

  // ---------------------------------------------------------------------------------------
  // Slices.

  /** calc_ideal_runtime for a thread of weight w among n threads of total weight s. */
  function Slice(n: nat, w: nat, s: nat): nat
    requires s > 0
  {
    NANOS * n * w / s
  }

  /** A nicer thread never gets a longer slice. */
  lemma NicerGetsNoMore(n: nat, v: int, w: int, s: nat)
    requires s > 0 && NiceOk(v) && NiceOk(w) && v <= w
    ensures Slice(n, Weight(w), s) <= Slice(n, Weight(v), s)
  {
    if v < w {
      NicerIsLighter(v, w);
      MulMono(Weight(w), Weight(v), NANOS * n);
      assert NANOS * n * Weight(w) <= NANOS * n * Weight(v);
      DivMono(NANOS * n * Weight(w), NANOS * n * Weight(v), s);
    }
  }

  // The slices of the first k of threads with the given weights.
  ghost function SliceSum(ws: seq<nat>, k: nat): nat
    requires Total(ws) > 0 && k <= |ws|
  {
    if k == 0 then 0 else SliceSum(ws, k - 1) + Slice(|ws|, ws[k - 1], Total(ws))
  }

  lemma SliceBounds(n: nat, w: nat, s: nat)
    requires s > 0
    ensures Slice(n, w, s) * s <= NANOS * n * w < Slice(n, w, s) * s + s
  {
    Bounds(NANOS * n * w, s);
  }

  lemma {:induction false} PartialSum(ws: seq<nat>, k: nat)
    requires Total(ws) > 0 && k <= |ws|
    ensures var s, total := Total(ws), NANOS * |ws| * Total(ws[..k]);
            SliceSum(ws, k) * s <= total && (k > 0 ==> total < SliceSum(ws, k) * s + k * s)
  {
    if k > 0 {
      PartialSum(ws, k - 1);
      assert ws[..k][..k - 1] == ws[..k - 1];
      var n, w, s := |ws|, ws[k - 1], Total(ws);
      SliceBounds(n, w, s);
      Distribute(NANOS * n, Total(ws[..k - 1]), w);
      Distribute(s, SliceSum(ws, k - 1), Slice(n, w, s));
      Distribute(s, k - 1, 1);
    }
  }

  lemma Distribute(c: int, a: int, b: int)
    ensures c * (a + b) == c * a + c * b && (a + b) * c == a * c + b * c
  {
  }

  /** One round of slices for n threads takes at most 4000000 n nanoseconds, and more than n less. */
  lemma RoundLength(ws: seq<nat>)
    requires Total(ws) > 0
    ensures NANOS * |ws| - |ws| < SliceSum(ws, |ws|) <= NANOS * |ws|
  {
    var n, s := |ws|, Total(ws);
    PartialSum(ws, n);
    assert ws[..n] == ws;
    CancelSum(SliceSum(ws, n), n, s);
  }

  lemma CancelSum(sum: nat, n: nat, s: nat)
    requires s > 0 && n > 0 && sum * s <= NANOS * n * s < sum * s + n * s
    ensures NANOS * n - n < sum <= NANOS * n
  {
    if sum > NANOS * n { MulMono(NANOS * n + 1, sum, s); }
    if sum + n <= NANOS * n { MulMono(sum + n, NANOS * n, s); }
    Distribute(s, sum, n);
  }

  // ---------------------------------------------------------------------------------------
  // Virtual run time.

  /** What calc_vruntime adds for a run of d nanoseconds. */
  function Advance(d: nat, w: nat): nat
    requires w > 0
  {
    d * 1024 / w
  }

  // After a full slice the advance is at most 1024 * 4000000 n / s, and less than 70 below that.
  lemma AdvanceBounds(n: nat, w: nat, s: nat)
    requires s > 0 && w >= 15
    ensures var a := Advance(Slice(n, w, s), w); a * s <= 1024 * NANOS * n < a * s + 70 * s
  {
    var d := Slice(n, w, s);
    var a := Advance(d, w);
    SliceBounds(n, w, s);
    Bounds(d * 1024, w);
    AdvanceUpper(n, w, s, d, a);
    AdvanceLower(n, w, s, d, a);
  }

  lemma AdvanceUpper(n: nat, w: nat, s: nat, d: nat, a: nat)
    requires w > 0 && d * s <= NANOS * n * w && a * w <= d * 1024
    ensures a * s <= 1024 * NANOS * n
  {
    MulMono(a * w, d * 1024, s);
    assert a * w * s == a * s * w by { Rotate(a, w, s); }
    assert d * 1024 * s == 1024 * (d * s);
    assert a * s * w <= 1024 * NANOS * n * w;
    Cancel(a * s, 1024 * NANOS * n, w);
  }

  lemma AdvanceLower(n: nat, w: nat, s: nat, d: nat, a: nat)
    requires w >= 15 && s > 0 && NANOS * n * w < d * s + s && d * 1024 < a * w + w
    ensures 1024 * NANOS * n < a * s + 70 * s
  {
    MulMono(d * 1024 + 1, a * w + w, s);
    Expand(d * 1024, 1, s);
    Expand(a * w, w, s);
    Rotate(a, w, s);
    Rotate(1024, d, s);
    MulMono(15, w, s);
    LowerSum(NANOS * n * w, d * s, s, a * s * w, w * s);
    Expand(a * s, 70 * s, w);
    Rotate(70, s, w);
    Rescale(n, w);
    CancelStrict(1024 * NANOS * n, a * s + 70 * s, w);
  }

  lemma Expand(a: int, b: int, c: int)
    ensures (a + b) * c == a * c + b * c
  {
  }

  lemma Rescale(n: int, w: int)
    ensures 1024 * NANOS * n * w == 1024 * (NANOS * n * w)
  {
  }

  lemma LowerSum(p: int, z: int, s: int, x: int, y: int)
    requires s >= 0 && p < z + s && 1024 * z + s <= x + y && 15 * s <= y
    ensures 1024 * p < x + 70 * y
  {
  }

  lemma Rotate(a: int, b: int, c: int)
    ensures a * b * c == a * c * b
  {
  }

  lemma Cancel(a: int, b: int, c: int)
    requires c > 0 && a * c <= b * c
    ensures a <= b
  {
    if a > b { MulMono(b + 1, a, c); }
  }

  lemma CancelStrict(a: int, b: int, c: int)
    requires c > 0 && a * c < b * c
    ensures a < b
  {
    if a >= b { MulMono(b, a, c); }
  }

  /** A full slice advances the virtual run times of any two threads by nearly the same amount,
      whatever their nice values. */
  lemma FairAdvance(n: nat, v: int, w: int, s: nat)
    requires s > 0 && NiceOk(v) && NiceOk(w)
    ensures -70 < Advance(Slice(n, Weight(v), s), Weight(v)) - Advance(Slice(n, Weight(w), s), Weight(w)) < 70
  {
    var a, b := Advance(Slice(n, Weight(v), s), Weight(v)), Advance(Slice(n, Weight(w), s), Weight(w));
    AdvanceBounds(n, Weight(v), s);
    AdvanceBounds(n, Weight(w), s);
    Distribute(s, a, 70);
    Distribute(s, b, 70);
    CancelStrict(a, b + 70, s);
    CancelStrict(b, a + 70, s);
  }

  // ---------------------------------------------------------------------------------------
  // Which thread runs does not matter to the total.

  lemma {:induction false} TotalAppend(a: seq<nat>, b: seq<nat>)
    ensures Total(a + b) == Total(a) + Total(b)
    decreases |b|
  {
    if b == [] {
      assert a + b == a;
    } else {
      assert (a + b)[..|a + b| - 1] == a + b[..|b| - 1];
      TotalAppend(a, b[..|b| - 1]);
    }
  }

  lemma TotalInsert(a: seq<nat>, x: nat, b: seq<nat>)
    ensures Total(a + [x] + b) == Total(a + b) + x
  {
    assert [x][..0] == [];
    TotalAppend(a, [x]);
    TotalAppend(a + [x], b);
    TotalAppend(a, b);
  }

  lemma WithoutMultiset<X>(s: seq<X>, k: nat)
    requires k < |s|
    ensures multiset(RemoveAt(s, k)) == multiset(s) - multiset{s[k]}
  {
    assert s == s[..k] + [s[k]] + s[k + 1..];
  }

  lemma SplitAt<X>(s: seq<X>, k: nat)
    requires k < |s|
    ensures s == s[..k] + [s[k]] + s[k + 1..]
  {
  }

  lemma {:induction false} TotalOfPermutation(a: seq<nat>, b: seq<nat>)
    requires multiset(a) == multiset(b)
    ensures Total(a) == Total(b)
    decreases |a|
  {
    if a == [] {
      assert |multiset(b)| == 0;
    } else {
      var last := |a| - 1;
      var k := PlaceOf(a, b);
      WithoutMultiset(a, last);
      WithoutMultiset(b, k);
      assert RemoveAt(a, last) == a[..last];
      TotalOfPermutation(a[..last], RemoveAt(b, k));
      SplitAt(b, k);
      TotalInsert(b[..k], b[k], b[k + 1..]);
    }
  }

  // Where the last element of a is in b.
  lemma PlaceOf<X>(a: seq<X>, b: seq<X>) returns (k: nat)
    requires a != [] && multiset(a) == multiset(b)
    ensures k < |b| && b[k] == a[|a| - 1]
  {
    assert a[|a| - 1] in multiset(b);
    k :| k < |b| && b[k] == a[|a| - 1];
  }

  ghost function Mapped<X, Y>(s: seq<X>, f: X -> Y): (r: seq<Y>)
    ensures |r| == |s| && forall i :: 0 <= i < |s| ==> r[i] == f(s[i])
  {
    seq(|s|, i requires 0 <= i < |s| => f(s[i]))
  }

  lemma {:induction false} MappedPermutation<X, Y>(a: seq<X>, b: seq<X>, f: X -> Y)
    requires multiset(a) == multiset(b)
    ensures multiset(Mapped(a, f)) == multiset(Mapped(b, f))
    decreases |a|
  {
    if a == [] {
      assert |multiset(b)| == 0;
    } else {
      var last := |a| - 1;
      var k := PlaceOf(a, b);
      WithoutMultiset(a, last);
      WithoutMultiset(b, k);
      MappedPermutation(RemoveAt(a, last), RemoveAt(b, k), f);
      MappedWithout(a, last, f);
      MappedWithout(b, k, f);
      WithoutMultiset(Mapped(a, f), last);
      WithoutMultiset(Mapped(b, f), k);
      Restore(multiset(Mapped(a, f)), multiset(Mapped(b, f)), f(b[k]));
    }
  }

  lemma MappedWithout<X, Y>(s: seq<X>, k: nat, f: X -> Y)
    requires k < |s|
    ensures Mapped(RemoveAt(s, k), f) == RemoveAt(Mapped(s, f), k)
  {
  }

  lemma Restore<Y>(m: multiset<Y>, n: multiset<Y>, y: Y)
    requires y in m && y in n && m - multiset{y} == n - multiset{y}
    ensures m == n
  {
    assert m == (m - multiset{y}) + multiset{y} && n == (n - multiset{y}) + multiset{y};
  }
}
