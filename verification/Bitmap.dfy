/** Word-packed bitmaps (src/lib/kernel/bitmap.c) and the map of free sectors built on them
    (src/filesys/free-map.c). */
module Bitmap {

  const ELEM_BITS: nat := 32

  /** elem_cnt: as many elements as the bits need. */
  function ElemCnt(bitCnt: nat): (n: nat)
    ensures (n - 1) * ELEM_BITS < bitCnt <= n * ELEM_BITS || bitCnt == n == 0
  {
    (bitCnt + ELEM_BITS - 1) / ELEM_BITS
  }

  // ---------------------------------------------------------------------------------------
  // Elements are unsigned words; their bits from the lowest up.

  /** (elem & bit_mask (k)) != 0. */
  predicate TestBit(elem: nat, k: nat) {
    if k == 0 then elem % 2 == 1 else TestBit(elem / 2, k - 1)
  }

  /** elem | bit_mask (k). */
  function OrBit(elem: nat, k: nat): nat {
    if k == 0 then elem / 2 * 2 + 1 else 2 * OrBit(elem / 2, k - 1) + elem % 2
  }

  /** elem & ~bit_mask (k). */
  function AndNotBit(elem: nat, k: nat): nat {
    if k == 0 then elem / 2 * 2 else 2 * AndNotBit(elem / 2, k - 1) + elem % 2
  }

  // elem is below 2^width.
  ghost predicate Fits(elem: nat, width: nat) {
    if width == 0 then elem == 0 else Fits(elem / 2, width - 1)
  }

  lemma Halves(a: nat, r: nat)
    requires r < 2
    ensures (2 * a + r) / 2 == a && (2 * a + r) % 2 == r
  {
  }

  /** Setting bit k changes bit k alone. */
  lemma {:induction false} OrOneBit(elem: nat, k: nat, j: nat)
    ensures TestBit(OrBit(elem, k), j) <==> j == k || TestBit(elem, j)
    decreases k
  {
    if k > 0 {
      Halves(OrBit(elem / 2, k - 1), elem % 2);
      if j > 0 { OrOneBit(elem / 2, k - 1, j - 1); }
    } else {
      Halves(elem / 2, 1);
    }
  }

  /** Clearing bit k changes bit k alone. */
  lemma {:induction false} AndNotOneBit(elem: nat, k: nat, j: nat)
    ensures TestBit(AndNotBit(elem, k), j) <==> j != k && TestBit(elem, j)
    decreases k
  {
    if k > 0 {
      Halves(AndNotBit(elem / 2, k - 1), elem % 2);
      if j > 0 { AndNotOneBit(elem / 2, k - 1, j - 1); }
    } else {
      Halves(elem / 2, 0);
    }
  }

  lemma {:induction false} StaysInWidth(elem: nat, k: nat, width: nat)
    requires k < width && Fits(elem, width)
    ensures Fits(OrBit(elem, k), width) && Fits(AndNotBit(elem, k), width)
    decreases k
  {
    if k > 0 {
      Halves(OrBit(elem / 2, k - 1), elem % 2);
      Halves(AndNotBit(elem / 2, k - 1), elem % 2);
      StaysInWidth(elem / 2, k - 1, width - 1);
    }
  }

  lemma {:induction false} NoBits(k: nat)
    ensures !TestBit(0, k)
  {
    if k > 0 { NoBits(k - 1); }
  }

  lemma ZeroFits(width: nat)
    ensures Fits(0, width)
  {
  }

  // ---------------------------------------------------------------------------------------
  // Runs of equal bits.

  ghost predicate AllAre(bits: seq<bool>, start: nat, cnt: nat, value: bool) {
    start + cnt <= |bits| && forall k :: start <= k < start + cnt ==> bits[k] == value
  }

  // i is the first place from start on where cnt bits in a row have this value.
  ghost predicate FirstRun(bits: seq<bool>, start: nat, cnt: nat, value: bool, i: nat) {
    start <= i && AllAre(bits, i, cnt, value) && forall j :: start <= j < i ==> !AllAre(bits, j, cnt, value)
  }

  function Filled(bits: seq<bool>, start: nat, cnt: nat, value: bool): (r: seq<bool>)
    requires start + cnt <= |bits|
    ensures |r| == |bits|
    ensures forall k :: 0 <= k < |r| ==> r[k] == if start <= k < start + cnt then value else bits[k]
  {
    seq(|bits|, k requires 0 <= k < |bits| => if start <= k < start + cnt then value else bits[k])
  }

  class BitArray {
    const bitCnt: nat
    const elems: array<nat>

    ghost predicate Valid()
      reads elems
    {
      elems.Length == ElemCnt(bitCnt) && forall e :: 0 <= e < elems.Length ==> Fits(elems[e], ELEM_BITS)
    }

    /** The bitmap from the outside: an array of bits. */
    ghost function Bits(): (bits: seq<bool>)
      requires Valid()
      reads elems
      ensures |bits| == bitCnt
    {
      seq(bitCnt, k requires 0 <= k < bitCnt reads elems requires elems.Length == ElemCnt(bitCnt) =>
          TestBit(elems[k / ELEM_BITS], k % ELEM_BITS))
    }

    /** bitmap_create: all bits false. */
    constructor (bitCnt: nat)
      ensures Valid() && fresh(elems) && this.bitCnt == bitCnt && Bits() == seq(bitCnt, _ => false)
    {
      this.bitCnt := bitCnt;
      elems := new nat[ElemCnt(bitCnt)](_ => 0);
      new;
      ZeroFits(ELEM_BITS);
      forall k | 0 <= k < bitCnt ensures !TestBit(elems[k / ELEM_BITS], k % ELEM_BITS) { NoBits(k % ELEM_BITS); }
    }

    /** bitmap_set: one bit changes, its neighbours in the element do not. */
    method Set(idx: nat, value: bool)
      requires Valid() && idx < bitCnt
      modifies elems
      ensures Valid() && Bits() == old(Bits())[idx := value]
    {
      ghost var before := elems[..];
      var e := idx / ELEM_BITS;
      StaysInWidth(elems[e], idx % ELEM_BITS, ELEM_BITS);
      if value {
        elems[e] := OrBit(elems[e], idx % ELEM_BITS);
      } else {
        elems[e] := AndNotBit(elems[e], idx % ELEM_BITS);
      }
      forall k | 0 <= k < bitCnt
        ensures TestBit(elems[k / ELEM_BITS], k % ELEM_BITS)
             == if k == idx then value else TestBit(before[k / ELEM_BITS], k % ELEM_BITS)
      {
        if k / ELEM_BITS == e {
          OrOneBit(before[e], idx % ELEM_BITS, k % ELEM_BITS);
          AndNotOneBit(before[e], idx % ELEM_BITS, k % ELEM_BITS);
        }
      }
    }

    method Test(idx: nat) returns (value: bool)
      requires Valid() && idx < bitCnt
      ensures value == Bits()[idx]
    {
      value := TestBit(elems[idx / ELEM_BITS], idx % ELEM_BITS);
    }

    /** bitmap_set_multiple. */
    method SetMultiple(start: nat, cnt: nat, value: bool)
      requires Valid() && start + cnt <= bitCnt
      modifies elems
      ensures Valid() && Bits() == Filled(old(Bits()), start, cnt, value)
    {
      var i := 0;
      while i < cnt
        invariant 0 <= i <= cnt
        invariant Valid() && Bits() == Filled(old(Bits()), start, i, value)
      {
        Set(start + i, value);
        i := i + 1;
      }
    }

    /** bitmap_contains. */
    method Contains(start: nat, cnt: nat, value: bool) returns (r: bool)
      requires Valid() && start + cnt <= bitCnt
      ensures r <==> !AllAre(Bits(), start, cnt, !value)
    {
      var i := 0;
      while i < cnt
        invariant 0 <= i <= cnt
        invariant forall k :: start <= k < start + i ==> Bits()[k] == !value
      {
        var t := Test(start + i);
        if t == value {
          return true;
        }
        i := i + 1;
      }
      return false;
    }

    /** bitmap_scan: the first run, or none when there is none. */
    method Scan(start: nat, cnt: nat, value: bool) returns (found: bool, idx: nat)
      requires Valid() && start <= bitCnt
      ensures found ==> FirstRun(Bits(), start, cnt, value, idx)
      ensures !found ==> forall i :: start <= i ==> !AllAre(Bits(), i, cnt, value)
    {
      if cnt <= bitCnt {
        var last := bitCnt - cnt;
        var i := start;
        while i <= last
          invariant start <= i
          invariant forall j :: start <= j < i ==> !AllAre(Bits(), j, cnt, value)
          decreases last + 1 - i
        {
          var other := Contains(i, cnt, !value);
          if !other {
            return true, i;
          }
          i := i + 1;
        }
      }
      return false, 0;
    }

    /** bitmap_scan_and_flip. */
    method ScanAndFlip(start: nat, cnt: nat, value: bool) returns (found: bool, idx: nat)
      requires Valid() && start <= bitCnt
      modifies elems
      ensures Valid()
      ensures found ==> FirstRun(old(Bits()), start, cnt, value, idx) && Bits() == Filled(old(Bits()), idx, cnt, !value)
      ensures !found ==> Bits() == old(Bits()) && forall i :: start <= i ==> !AllAre(old(Bits()), i, cnt, value)
    {
      found, idx := Scan(start, cnt, value);
      if found {
        SetMultiple(idx, cnt, !value);
      }
    }

    // ---- the free map: bit s is set when sector s is in use

    /** free_map_allocate. */
    method Allocate(cnt: nat) returns (ok: bool, sector: nat)
      requires Valid()
      modifies elems
      ensures Valid()
      ensures ok ==> FirstRun(old(Bits()), 0, cnt, false, sector) && Bits() == Filled(old(Bits()), sector, cnt, true)
      ensures !ok ==> Bits() == old(Bits()) && forall i: nat :: !AllAre(old(Bits()), i, cnt, false)
    {
      ok, sector := ScanAndFlip(0, cnt, false);
    }

    /** free_map_release: the sectors must be in use, which the assertion checks. */
    method Release(sector: nat, cnt: nat)
      requires Valid() && AllAre(Bits(), sector, cnt, true)
      modifies elems
      ensures Valid() && Bits() == Filled(old(Bits()), sector, cnt, false)
    {
      var all := Contains(sector, cnt, false);
      assert !all;
      SetMultiple(sector, cnt, false);
    }
  }
}
