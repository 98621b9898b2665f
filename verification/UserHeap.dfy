/** The allocator itself: mm_init, malloc, free, coalesce, place, find_fit and extend_heap of
    src/lib/user/malloc.c, as methods that rewrite the words of memory. */
module UserHeap {
  import opened UserHeapLists
  import opened UserHeapBlocks
  import opened UserHeapInvariant
  import opened UserHeapSearch

  const CHUNKSIZE: nat := 128
  // size_t is 32 bits; a negative sbrk increment (2^31 bytes and up) is refused by the kernel.
  const SIZE_T: nat := 0x1_0000_0000
  const MAX_WORDS: nat := 0x2000_0000

  function Max(x: nat, y: nat): (m: nat)
    ensures x <= m && y <= m && (m == x || m == y)
  {
    if x > y then x else y
  }

  /** The block size in words that malloc computes for a request of `size` bytes, in 32-bit
      arithmetic: one tag is added, the sum is rounded up to 16 bytes. */
  function AdjustedWords(size: nat): (w: nat)
    requires size < SIZE_T
    ensures MIN_BLOCK_SIZE_WORDS <= w && w % 4 == 0
  {
    var tagged := (size + 4) % SIZE_T;
    var padded := (tagged + 15) % SIZE_T;
    Max(MIN_BLOCK_SIZE_WORDS, padded / 16 * 4)
  }

  /** The adjusted block holds the request exactly when the 32-bit sum does not wrap, and then it is
      the smallest block of whole 16-byte units that does, or a minimal one. */
  lemma AdjustedWordsSuffice(size: nat)
    requires 0 < size < SIZE_T
    ensures 4 * (AdjustedWords(size) - 1) >= size <==> size + 19 < SIZE_T
    ensures size + 19 < SIZE_T ==>
      AdjustedWords(size) == MIN_BLOCK_SIZE_WORDS || 4 * (AdjustedWords(size) - 4 - 1) < size
    ensures size + 19 >= SIZE_T ==> AdjustedWords(size) == MIN_BLOCK_SIZE_WORDS
  {
  }

  /** A request close to 4 GiB gets a block with 28 bytes of payload. */
  lemma HugeRequestWraps()
    ensures AdjustedWords(0xFFFF_FFFF) == 8
  {
  }

  class Heap {
    var mem: Memory
    var heapListp: nat          // 0 until mm_init has run
    var avail: nat              // words by which the kernel is willing to move the break
    ghost var lay: Layout
    ghost var ch: Chain

    /** The allocator's state between calls. */
    ghost predicate Valid()
      reads this
    {
      && |mem| + avail < MAX_WORDS
      && if heapListp == 0 then |mem| == HEAP && (forall a :: 0 <= a < HEAP ==>
          mem[a] == ZERO) && lay == map[] && ch == map[]
         else heapListp == FIRST && Inv(mem, lay, ch)
    }

    /** What the program owns: the payload words of each block in use, by block. */
    ghost function Live(): map<nat, seq<Word>>
      reads this
    {
      Contents(mem, lay)
    }

    constructor ()
      ensures Valid() && Live() == map[] && heapListp == 0
    {
      mem := seq(HEAP, _ => ZERO);
      heapListp := 0;
      avail := 0;
      lay := map[];
      ch := map[];
    }

    /** The kernel's memory situation changes between calls; it never grants more than the address
        space holds. */
    method KernelOffers(words: nat)
      requires Valid()
      modifies this`avail
      ensures Valid() && avail == if |mem| + words < MAX_WORDS then words else MAX_WORDS - 1 - |mem|
    {
      avail := if |mem| + words < MAX_WORDS then words else MAX_WORDS - 1 - |mem|;
    }

    // ---- list operations inside an allocator call

    method ListRemove(e: nat)
      requires Mid(mem, lay, ch) && e in ch && HEAP <= e
      modifies this`mem, this`ch
      ensures Mid(mem, lay, ch) && ch == old(ch) - {e} && Live() == old(Live()) && |mem| == old(|mem|)
    {
      RemoveStep(mem, lay, ch, e);
      mem := Remove(mem, e);
      ch := ch - {e};
    }

    method ListPushBack(i: nat, b: nat)
      requires Mid(mem, lay, ch) && b in lay && !lay[b].used && b + 1 !in ch && i < NUM_LISTS && Tail(i) in ch
      modifies this`mem, this`ch
      ensures Mid(mem, lay, ch) && ch == Pushed(old(ch), i, b + 1) && Live() == old(Live()) && |mem| == old(|mem|)
    {
      FreeElem(mem, lay, b);
      PushStep(mem, lay, ch, i, b + 1);
      mem := PushBack(mem, i, b + 1);
      ch := Pushed(ch, i, b + 1);
    }

    method MarkMerged(p: nat, q: nat, size: nat)
      requires Shape(mem, lay, ch, 0) && Touching(lay, p) && q == Next(lay, p) && size == lay[p].size + lay[q].size
      modifies this`mem, this`lay
      ensures Mid(mem, lay, ch) && lay == Merged(old(lay), p) && Live() == old(Live()) && |mem| == old(|mem|)
      ensures p + 1 in ch && q + 1 in ch && HEAP <= p && p != q && HEAP <= q
    {
      assert Tile(lay, |mem| - 1, p) && Tile(lay, |mem| - 1, q) && Listed(lay, ch, p) && Listed(lay, ch, q);
      ShapeMid(mem, lay, ch, 0);
      MergeMark(mem, lay, ch, p);
      mem := MarkFree(mem, p, size);
      lay := Merged(lay, p);
    }

    // Cases 2 and 3 of coalesce: block p absorbs the free block q to its right.
    method Absorb(p: nat, q: nat, size: nat)
      requires Shape(mem, lay, ch, 0) && Touching(lay, p) && q == Next(lay, p) && size == lay[p].size + lay[q].size
      modifies this`mem, this`ch, this`lay
      ensures Shape(mem, lay, ch, 0) && lay == Merged(old(lay), p) && Live() == old(Live()) && |mem| == old(|mem|)
    {
      AbsorbedMatch(mem, lay, ch, p, GetList(size));
      MarkMerged(p, q, size);
      ListRemove(q + 1);
      ListRemove(p + 1);
      assert mem[p].size == size by { assert Tagged(mem, lay, p); }
      ListPushBack(GetList(mem[p].size), p);
      assert old(ch) - {q + 1} - {p + 1} == old(ch) - {q + 1, p + 1};
    }

    static lemma AbsorbedMatch(mem: Memory, lay: Layout, ch: Chain, p: nat, i: nat)
      requires Shape(mem, lay, ch, 0) && Touching(lay, p)
      requires i == GetList(lay[p].size + lay[Next(lay, p)].size)
      ensures Tail(i) in ch - {Next(lay, p) + 1, p + 1}
      ensures Match(Merged(lay, p), Pushed(ch - {Next(lay, p) + 1, p + 1}, i, p + 1), 0)
    {
      var q := Next(lay, p);
      forall c | c in lay ensures HEAP <= c { assert Tile(lay, |mem| - 1, c); }
      Rematch(lay, Merged(lay, p), ch, {q + 1, p + 1}, p, i);
    }

    method MarkMergedThree(p: nat, b: nat, q: nat, size: nat)
      requires Shape(mem, lay, ch, 0) && Touching(lay, p) && b == Next(lay, p) && Touching(lay, b) && q == Next(lay, b)
      requires size == lay[b].size + lay[q].size + lay[p].size
      modifies this`mem, this`lay
      ensures Touching(Merged(old(lay), p), p) && lay == Merged(Merged(old(lay), p), p)
      ensures Mid(mem, lay, ch) && Live() == old(Live()) && |mem| == old(|mem|)
      ensures p + 1 in ch && b + 1 in ch && q + 1 in ch && HEAP <= p < b < q < |mem|
      ensures mem[b - 1].size == old(lay)[p].size
    {
      hide Lists, AllRoomy, Contents;
      ghost var end := |mem| - 1;
      assert Tile(lay, end, p) && Tile(lay, end, b) && Tile(lay, end, q);
      assert Listed(lay, ch, p) && Listed(lay, ch, b) && Listed(lay, ch, q) && Tagged(mem, lay, p);
      ShapeMid(mem, lay, ch, 0);
      MergeMarkThree(mem, lay, ch, p);
      mem := MarkFree(mem, p, size);
      lay := Merged(Merged(lay, p), p);
    }

    // Case 4 of coalesce: block p absorbs b and q to its right.
    method AbsorbBoth(p: nat, b: nat, q: nat, size: nat)
      requires Shape(mem, lay, ch, 0) && Touching(lay, p) && b == Next(lay, p) && Touching(lay, b) && q == Next(lay, b)
      requires size == lay[b].size + lay[q].size + lay[p].size
      modifies this`mem, this`ch, this`lay
      ensures Touching(Merged(old(lay), p), p) && lay == Merged(Merged(old(lay), p), p)
      ensures Shape(mem, lay, ch, 0) && Live() == old(Live()) && |mem| == old(|mem|)
    {
      hide Geometry, Tags, Lists, Match, AllRoomy, Contents;
      AbsorbedBothMatch(mem, lay, ch, p, GetList(size));
      MarkMergedThree(p, b, q, size);
      var left := b - mem[b - 1].size;
      RelistThree(left, b, q);
    }

    method RelistThree(p: nat, b: nat, q: nat)
      requires Mid(mem, lay, ch) && p in lay && !lay[p].used && p < b < q && HEAP <= p
      requires p + 1 in ch && b + 1 in ch && q + 1 in ch
      modifies this`mem, this`ch
      ensures Mid(mem, lay, ch) && Live() == old(Live()) && |mem| == old(|mem|)
      ensures var i := GetList(lay[p].size);
        Tail(i) in old(ch) && ch == Pushed(old(ch) - {b + 1, q + 1, p + 1}, i, p + 1)
    {
      ListRemove(b + 1);
      ListRemove(q + 1);
      ListRemove(p + 1);
      assert ch == old(ch) - {b + 1, q + 1, p + 1};
      assert mem[p].size == lay[p].size by { assert Tagged(mem, lay, p); }
      ListPushBack(GetList(mem[p].size), p);
    }

    static lemma AbsorbedBothMatch(mem: Memory, lay: Layout, ch: Chain, p: nat, i: nat)
      requires Shape(mem, lay, ch, 0) && Touching(lay, p) && Touching(lay, Next(lay, p))
      requires i == GetList(lay[p].size + lay[Next(lay, p)].size + lay[Next(lay, Next(lay, p))].size)
      ensures var b := Next(lay, p); var q := Next(lay, b);
        && Touching(Merged(lay, p), p) && Tail(i) in ch - {b + 1, q + 1, p + 1}
        && Match(Merged(Merged(lay, p), p), Pushed(ch - {b + 1, q + 1, p + 1}, i, p + 1), 0)
    {
      var b := Next(lay, p);
      var q := Next(lay, b);
      assert Tile(lay, |mem| - 1, p) && Tile(lay, |mem| - 1, b) && Tile(lay, |mem| - 1, q);
      var lay2 := Merged(Merged(lay, p), p);
      assert lay2 == (lay - {b, q})[p := Block(lay[p].size + lay[b].size + lay[q].size, false)];
      AbsorbedBothGone(mem, lay, lay2, ch, p, b, q, i);
    }

    static lemma AbsorbedBothGone(mem: Memory, lay: Layout, lay2: Layout, ch: Chain, p: nat, b: nat, q: nat, i: nat)
      requires Shape(mem, lay, ch, 0) && p in lay && b in lay && q in lay && p != b && p != q
      requires lay2 == (lay - {b, q})[p := Block(lay[p].size + lay[b].size + lay[q].size, false)]
      requires i == GetList(lay2[p].size)
      ensures Tail(i) in ch - {b + 1, q + 1, p + 1}
      ensures Match(lay2, Pushed(ch - {b + 1, q + 1, p + 1}, i, p + 1), 0)
    {
      forall c | c in lay ensures HEAP <= c { assert Tile(lay, |mem| - 1, c); }
      Rematch(lay, lay2, ch, {b + 1, q + 1, p + 1}, p, i);
    }

    /** coalesce: afterwards no two free blocks touch, and the free block returned covers bp. */
    method Coalesce(bp: nat) returns (r: nat)
      requires Shape(mem, lay, ch, 0) && NoTouch(lay, bp) && bp in lay && !lay[bp].used
      modifies this`mem, this`ch, this`lay
      ensures Inv(mem, lay, ch) && Live() == old(Live()) && |mem| == old(|mem|)
      ensures r in lay && !lay[r].used && r <= bp && old(Next(lay, bp)) <= Next(lay, r)
    {
      ReadBlock(mem, lay, ch, 0, bp);
      ghost var end := |mem| - 1;
      var prevAlloc := mem[bp].pinuse;
      var size := mem[bp].size;
      var next := bp + size;
      var nextAlloc := mem[next].inuse;
      r := bp;
      if prevAlloc && nextAlloc {
        Settled(lay, bp);
      } else if prevAlloc && !nextAlloc {
        RightOfFree(lay, end, bp);
        MergedSettled(lay, end, bp, bp);
        Absorb(bp, next, size + mem[next].size);
      } else if !prevAlloc && nextAlloc {
        PrevBlock(mem, lay, ch, 0, bp);
        r := bp - mem[bp - 1].size;
        ReadBlock(mem, lay, ch, 0, r);
        LeftOfFree(lay, end, bp, r);
        MergedSettled(lay, end, bp, r);
        Absorb(r, bp, size + mem[r].size);
      } else {
        PrevBlock(mem, lay, ch, 0, bp);
        r := bp - mem[bp - 1].size;
        ReadBlock(mem, lay, ch, 0, r);
        BothFree(lay, end, bp, r);
        AbsorbBoth(r, bp, next, size + mem[next].size + mem[r].size);
      }
    }

    // The block after a free right neighbour is in use.
    static lemma RightOfFree(lay: Layout, end: nat, b: nat)
      requires Geometry(lay, end) && NoTouch(lay, b) && Touching(lay, b)
      ensures RightUsed(lay, Next(lay, b))
    {
      var q := Next(lay, b);
      assert Tile(lay, end, b) && Tile(lay, end, q);
      assert !Touching(lay, q);
    }

    // The block before a free left neighbour is in use.
    static lemma LeftOfFree(lay: Layout, end: nat, b: nat, p: nat)
      requires Geometry(lay, end) && NoTouch(lay, b) && Touching(lay, p) && Next(lay, p) == b
      ensures LeftUsed(lay, p)
    {
      assert Tile(lay, end, p);
      forall c | c in lay && Next(lay, c) == p ensures lay[c].used {
        assert Tile(lay, end, c);
        assert !Touching(lay, c);
      }
    }

    static lemma BothFree(lay: Layout, end: nat, b: nat, p: nat)
      requires Geometry(lay, end) && NoTouch(lay, b) && Touching(lay, p) && Next(lay, p) == b && Touching(lay, b)
      ensures Touching(Merged(lay, p), p) && NoTouch(Merged(Merged(lay, p), p), 0)
    {
      var lay1 := Merged(lay, p);
      assert Tile(lay, end, p) && Tile(lay, end, b);
      LeftOfFree(lay, end, b, p);
      RightOfFree(lay, end, b);
      MergedGeometry(lay, end, p);
      MergedNoTouch(lay, end, b, p);
      assert Tile(lay, end, Next(lay, b));
      assert LeftUsed(lay1, p) by {
        forall c | c in lay1 && Next(lay1, c) == p ensures lay1[c].used { assert Next(lay, c) == p; }
      }
      MergedSettled(lay1, end, p, p);
    }

    static lemma Sane(mem: Memory, lay: Layout, ch: Chain, x: nat)
      requires Shape(mem, lay, ch, x)
      ensures 0 !in lay && 1 !in ch
      ensures forall i :: 0 <= i < NUM_LISTS ==> Tail(i) in ch && ch[Tail(i)].list == i
    {
      forall b | b in lay ensures b != 0 { assert Tile(lay, |mem| - 1, b); }
      forall n | n in ch ensures n != 1 { assert Good(mem, ch, n); }
    }

    /** place: asize words of the free block bp, which is on no list, are handed out; a remainder
        of at least the minimum block size becomes a free block, a smaller one goes with them. */
    method Place(bp: nat, asize: nat)
      requires Shape(mem, lay, ch, bp) && NoTouch(lay, 0) && bp in lay && !lay[bp].used
      requires MIN_BLOCK_SIZE_WORDS <= asize <= lay[bp].size && asize % 4 == 0
      modifies this`mem, this`ch, this`lay
      ensures Inv(mem, lay, ch) && |mem| == old(|mem|)
      ensures bp in Live() && Live() == old(Live())[bp := Live()[bp]]
      ensures |Live()[bp]| + 1 == HandedOut(old(lay)[bp].size, asize)
      ensures AllFree(lay, bp + HandedOut(old(lay)[bp].size, asize), old(Next(lay, bp)))
    {
      Sane(mem, lay, ch, bp);
      ReadBlock(mem, lay, ch, bp, bp);
      var csize := mem[bp].size;
      if csize - asize >= MIN_BLOCK_SIZE_WORDS {
        PlaceRest(bp, asize);
        var rest := Coalesce(bp + asize);
        assert InBlock(lay, rest, bp + asize, old(Next(lay, bp)));
      } else {
        PlaceWhole(mem, lay, ch, bp);
        mem := MarkUsed(mem, bp, csize);
        lay := Retagged(lay, bp, true);
      }
    }

    /** What place hands out of a block of csize words for a request of asize. */
    static function HandedOut(csize: nat, asize: nat): nat {
      if csize >= asize + MIN_BLOCK_SIZE_WORDS then asize else csize
    }

    static ghost predicate InBlock(lay: Layout, r: nat, from: nat, to: nat) {
      r in lay && !lay[r].used && r <= from && to <= Next(lay, r)
    }

    // The words from `from` up to `to`, if any, lie in one free block.
    static ghost predicate AllFree(lay: Layout, from: nat, to: nat) {
      from < to ==> exists r :: InBlock(lay, r, from, to)
    }

    // place, when the block is split: up to the call of coalesce.
    method PlaceRest(bp: nat, asize: nat)
      requires Shape(mem, lay, ch, bp) && NoTouch(lay, 0) && bp in lay && !lay[bp].used
      requires MIN_BLOCK_SIZE_WORDS <= asize && asize + MIN_BLOCK_SIZE_WORDS <= lay[bp].size && asize % 4 == 0
      modifies this`mem, this`ch, this`lay
      ensures Shape(mem, lay, ch, 0) && NoTouch(lay, bp + asize) && |mem| == old(|mem|)
      ensures bp + asize in lay && !lay[bp + asize].used && Next(lay, bp + asize) == old(Next(lay, bp))
      ensures bp in Live() && Live() == old(Live())[bp := Live()[bp]] && |Live()[bp]| + 1 == asize
    {
      hide Geometry, Tags, Lists, Match, NoTouch, AllRoomy;
      ghost var end := |mem| - 1;
      ReadBlock(mem, lay, ch, bp, bp);
      var rest := mem[bp].size - asize;
      Sane(mem, lay, ch, bp);
      SplitGeometry(lay, end, bp, asize);
      SplitNoTouch(lay, end, bp, asize);
      SplitMatch(lay, end, ch, bp, asize, GetList(rest));
      PlaceSplit(mem, lay, ch, bp, asize);
      mem := MarkUsed(mem, bp, asize);
      mem := MarkFree(mem, bp + asize, rest);
      lay := Split(lay, bp, asize);
      assert |Live()[bp]| == asize - 1;
      ListPushBack(GetList(rest), bp + asize);
    }

    /** sbrk (words * WSIZE): grants whole requests only, refuses negative increments. */
    method Sbrk(words: nat) returns (ok: bool)
      requires words > 0
      modifies this`mem, this`avail
      ensures ok == (words < MAX_WORDS && words <= old(avail))
      ensures ok ==> mem == old(mem) + seq(words, _ => ZERO) && avail == old(avail) - words
      ensures !ok ==> mem == old(mem) && avail == old(avail)
    {
      ok := words < MAX_WORDS && words <= avail;
      if ok {
        mem := mem + seq(words, _ => ZERO);
        avail := avail - words;
      }
    }

    /** extend_heap: NULL (0) and no change when sbrk refuses, else a free block of at least
        `words` words. */
    method ExtendHeap(words: nat) returns (r: nat)
      requires Inv(mem, lay, ch) && words >= MIN_BLOCK_SIZE_WORDS && words % 4 == 0
      modifies this`mem, this`ch, this`lay, this`avail
      ensures Inv(mem, lay, ch) && Live() == old(Live())
      ensures r == 0 <==> !(words < MAX_WORDS && words <= old(avail))
      ensures r == 0 ==> mem == old(mem) && avail == old(avail)
      ensures r != 0 ==> r in lay && !lay[r].used && lay[r].size >= words && r < old(|mem|)
      ensures r != 0 ==> |mem| == old(|mem|) + words && avail == old(avail) - words
    {
      hide Geometry, Tags, Lists, Match, NoTouch, AllRoomy, Contents, Tile;
      ghost var lay0, ch0, mem0, b := lay, ch, mem, |mem| - 1;
      var ok := Sbrk(words);
      if !ok {
        return 0;
      }
      Extend(mem0, lay0, ch0, words, seq(words, _ => ZERO));
      Sane(mem0, lay0, ch0, 0);
      ExtendedMatch(lay0, b, ch0, words, GetList(words));
      ExtendedNoTouch(lay0, b, words);
      var blk := |mem| - words - 1;
      mem := MarkFree(mem, blk, words);
      mem := mem[blk + words := FENCE];
      lay := Extended(lay, blk, words);
      ListPushBack(GetList(words), blk);
      r := Coalesce(blk);
      Sane(mem, lay, ch, 0);
    }

    /** find_fit: the first block that fits among those it looks at, NULL (0) exactly if none of
        them does.  Then no free block is large enough, or fifty free blocks are too small. */
    method FindFit(asize: nat) returns (r: nat)
      requires Inv(mem, lay, ch)
      ensures r == FirstFit(mem, Candidates(mem, ch, asize), asize)
      ensures r == 0 <==> forall e :: e in Candidates(mem, ch, asize) ==> !Fits(mem, e, asize)
      ensures r != 0 ==> r in lay && !lay[r].used && asize <= lay[r].size
      ensures r == 0 ==>
        (forall b :: b in lay && !lay[b].used ==> lay[b].size < asize) || |TooSmall(lay, asize)| >= PATIENCE
    {
      hide Inv, Examined, GetNonEmptyList, Candidates, FirstFit;
      SearchStart(mem, lay, ch, asize);
      var check, index := 0, GetNonEmptyList(mem, asize, 0);
      while index < NUM_LISTS
        invariant index <= NUM_LISTS
        invariant FirstFit(mem, Candidates(mem, ch, asize), asize)
               == FirstFit(mem, Examined(mem, ch, index, check), asize)
      {
        SearchStep(mem, ch, index, check, asize);
        r, check := ScanList(index, asize, check);
        if r != 0 {
          NoFit(mem, Candidates(mem, ch, asize), asize);
          return;
        }
        index := index + 1;
      }
      SearchEnd(mem, lay, ch, asize, check);
      return 0;
    }

    // The inner loop of find_fit, over one list.
    method ScanList(index: nat, asize: nat, check0: nat) returns (r: nat, check: nat)
      requires Inv(mem, lay, ch) && index < NUM_LISTS
      ensures var l := FreeList(mem, ch, index);
        r == FirstFit(mem, l[..Quota(|l|, check0)], asize) && (r == 0 ==> check == check0 + Quota(|l|, check0))
      ensures r != 0 ==> r in lay && !lay[r].used && asize <= lay[r].size
    {
      hide Inv, Scanning, FreeList, FirstFit;
      HasLists(mem, lay, ch);
      check := check0;
      ghost var l, k, j := FreeList(mem, ch, index), Quota(|FreeList(mem, ch, index)|, check0), 0;
      ScanFirst(mem, ch, index);
      var e := mem[Head(index) + 1].size;
      while e != Tail(index)
        invariant Scanning(mem, ch, index, e, l, j) && 0 <= j <= k
        invariant check == check0 + j && (j > 0 ==> check < PATIENCE)
        invariant forall m :: 0 <= m < j ==> !Fits(mem, l[m], asize)
        decreases |l| - j
      {
        ScanStep(mem, lay, ch, index, e, l, j);
        var bp := e - 1;
        if asize <= mem[bp].size {
          FirstFitAt(mem, l[..k], asize, j);
          return bp, check;
        }
        check := check + 1;
        j := j + 1;
        e := mem[e + 1].size;
        if check >= PATIENCE {
          break;
        }
      }
      if e == Tail(index) { ScanLast(mem, ch, index, l, j); }
      NoFit(mem, l[..k], asize);
      r := 0;
    }

    // free, up to the call of coalesce.
    method Release(blk: nat)
      requires Inv(mem, lay, ch) && blk in lay && lay[blk].used
      modifies this`mem, this`ch, this`lay
      ensures Shape(mem, lay, ch, 0) && lay == Retagged(old(lay), blk, false) && |mem| == old(|mem|)
      ensures Live() == old(Live()) - {blk}
    {
      Sane(mem, lay, ch, 0);
      ReadBlock(mem, lay, ch, 0, blk);
      UsedUnlisted(mem, lay, ch, blk);
      var i := GetList(mem[blk].size);
      FreedMatch(lay, |mem| - 1, ch, blk, i);
      FreePush(mem, lay, ch, blk, i);
      mem := PushBack(mem, i, blk + 1);
      ch := Pushed(ch, i, blk + 1);
      assert mem[blk].size == lay[blk].size by { assert Tagged(mem, lay, blk); }
      FreeMark(mem, lay, ch, blk);
      mem := MarkFree(mem, blk, mem[blk].size);
      lay := Retagged(lay, blk, false);
    }

    /** free: the block leaves the program's data, every other block keeps its words. */
    method Free(p: nat)
      requires Valid() && heapListp != 0
      requires p != 0 ==> p - 1 in Live()
      modifies this`mem, this`ch, this`lay
      ensures Valid() && |mem| == old(|mem|)
      ensures Live() == if p == 0 then old(Live()) else old(Live()) - {p - 1}
    {
      if p == 0 {
        return;
      }
      Sane(mem, lay, ch, 0);
      FreedNoTouch(lay, p - 1);
      Release(p - 1);
      var _ := Coalesce(p - 1);
    }

    /** mm_init: fences, empty lists and a first chunk.  -1 (false) when sbrk refuses: the first four
        words, and then nothing has changed, or the chunk, and then the heap is valid and empty. */
    method MmInit() returns (ok: bool)
      requires Valid() && heapListp == 0
      modifies this
      ensures Valid() && Live() == map[] && |mem| + avail == old(|mem| + avail)
      ensures heapListp != 0 <==> old(avail) >= 4
      ensures ok <==> old(avail) >= 4 + CHUNKSIZE
      ensures old(avail) < 4 ==> mem == old(mem)
      ensures |mem| == HEAP + (if ok then 4 + CHUNKSIZE else if old(avail) >= 4 then 4 else 0)
      ensures ok ==> exists b :: b in lay && !lay[b].used && lay[b].size >= CHUNKSIZE
    {
      var granted := Sbrk(4);
      if !granted {
        return false;
      }
      InitFences();
      var blk := ExtendHeap(CHUNKSIZE);
      ok := blk != 0;
    }

    // mm_init between the two calls of sbrk.
    method InitFences()
      requires |mem| == HEAP + 4 && lay == map[]
      modifies this`mem, this`heapListp, this`ch
      ensures Inv(mem, lay, ch) && heapListp == FIRST && |mem| == HEAP + 4
    {
      mem := mem[HEAP + 2 := FENCE];
      heapListp := HEAP + 3;
      mem := mem[HEAP + 3 := FENCE.(pinuse := true)];
      var x := 0;
      while x < NUM_LISTS
        invariant 0 <= x <= NUM_LISTS && |mem| == HEAP + 4
        invariant mem[HEAP + 2] == FENCE && mem[HEAP + 3] == FENCE.(pinuse := true)
        invariant forall i :: 0 <= i < x ==> mem[Head(i) + 1] == Ptr(Tail(i)) && mem[Tail(i)] == Ptr(Head(i))
        invariant heapListp == FIRST
      {
        mem := ListInit(mem, x);
        x := x + 1;
      }
      ch := Sentinels();
      EmptyLists(mem);
    }

    static ghost function Sentinels(): Chain {
      map n: nat | SEG_LIST <= n < HEAP && n % 2 == 0 :: Cell((n - SEG_LIST) / 4, n % 4)
    }

    static lemma SentinelGood(mem: Memory, i: nat)
      requires HEAP <= |mem| && i < NUM_LISTS
      requires mem[Head(i) + 1] == Ptr(Tail(i)) && mem[Tail(i)] == Ptr(Head(i))
      ensures Good(mem, Sentinels(), Head(i)) && Good(mem, Sentinels(), Tail(i))
      ensures Sentinels()[Head(i)].list == i && Sentinels()[Tail(i)].list == i
    {
      assert (Head(i) - SEG_LIST) / 4 == i && (Tail(i) - SEG_LIST) / 4 == i;
      assert Head(i) % 4 == 0 && Tail(i) % 4 == 2;
    }

    static lemma SentinelIndex(n: nat) returns (i: nat)
      requires SEG_LIST <= n < HEAP && n % 2 == 0
      ensures i < NUM_LISTS && (n == Head(i) || n == Tail(i))
    {
      i := (n - SEG_LIST) / 4;
    }

    static lemma EmptyLists(mem: Memory)
      requires HEAP <= |mem|
      requires forall i :: 0 <= i < NUM_LISTS ==> mem[Head(i) + 1] == Ptr(Tail(i)) && mem[Tail(i)] == Ptr(Head(i))
      ensures Lists(mem, Sentinels())
    {
      forall i | 0 <= i < NUM_LISTS
        ensures Good(mem, Sentinels(), Head(i)) && Good(mem, Sentinels(), Tail(i))
             && Sentinels()[Head(i)].list == i && Sentinels()[Tail(i)].list == i
      {
        SentinelGood(mem, i);
      }
      forall n | n in Sentinels() ensures Good(mem, Sentinels(), n) {
        var i := SentinelIndex(n);
        SentinelGood(mem, i);
      }
    }

    /** malloc: a block that was not in use, large enough for the adjusted request and 16-byte
        aligned; every live block keeps its words.  NULL (0) only for an empty request or when the
        search finds nothing and the kernel refuses to grow the heap; then the break stays.  The
        call faults exactly when it is the first for memory and sbrk refuses the first four words,
        since it then follows the zeroed list heads. */
    method Malloc(size: nat) returns (p: nat, fault: bool)
      requires Valid() && size < SIZE_T
      modifies this
      ensures Valid() && |mem| + avail == old(|mem| + avail)
      ensures fault <==> old(heapListp) == 0 && old(avail) < 4 && size != 0
      ensures heapListp == 0 <==> old(heapListp) == 0 && old(avail) < 4
      ensures p == 0 ==> Live() == old(Live())
      ensures p != 0 ==>
        && p % 4 == 0 && p - 1 !in old(Live()) && p - 1 in Live()
        && Live() == old(Live())[p - 1 := Live()[p - 1]]
        && AdjustedWords(size) <= |Live()[p - 1]| + 1 < AdjustedWords(size) + MIN_BLOCK_SIZE_WORDS
      ensures size == 0 || fault ==> p == 0
      ensures p == 0 && size != 0 && !fault ==> Refused(avail, AdjustedWords(size))
      ensures p == 0 && old(heapListp) != 0 ==> |mem| == old(|mem|)
      ensures p != 0 && old(heapListp) != 0 ==>
        Chosen(old(mem), old(ch), AdjustedWords(size), p - 1, |mem|)
      ensures p != 0 && old(heapListp) == 0 ==>
        |mem| == HEAP + 4 + CHUNKSIZE + (if AdjustedWords(size) > CHUNKSIZE then AdjustedWords(size) else 0)
      ensures old(heapListp) != 0 && size != 0 ==>
        (p == 0 <==> NoneFits(old(mem), old(ch), AdjustedWords(size)) && Refused(old(avail), AdjustedWords(size)))
      ensures old(heapListp) == 0 && old(avail) >= 4 && size != 0 ==>
        (p == 0 <==> old(avail) < 4 + CHUNKSIZE
                     || (AdjustedWords(size) > CHUNKSIZE
                         && Refused(old(avail) - 4 - CHUNKSIZE, AdjustedWords(size))))
    {
      hide Inv, AdjustedWords, NoneFits, Chosen;
      p, fault := 0, false;
      if heapListp == 0 {
        var _ := MmInit();
        if heapListp != 0 { FreshFits(mem, lay, ch, AdjustedWords(size)); }
      }
      if size == 0 {
        return;
      }
      if heapListp == 0 {
        return 0, true;
      }
      ghost var mem1, ch1 := mem, ch;
      p := Allocate(AdjustedWords(size));
      if p != 0 { ChosenBreak(mem1, ch1, AdjustedWords(size), p - 1, |mem|); }
    }

    // The kernel does not grow the heap for a request of awords words.
    static predicate Refused(avail: nat, awords: nat) {
      avail < Max(awords, CHUNKSIZE) || awords >= MAX_WORDS
    }

    // Nothing that find_fit looks at has awords words.
    static ghost predicate NoneFits(mem: Memory, ch: Chain, awords: nat) {
      Lists(mem, ch) && forall e :: e in Candidates(mem, ch, awords) ==> !Fits(mem, e, awords)
    }

    /** Block bp is the first fit that find_fit meets, and the break stays; or there is none, the heap has
        grown by the request, or by a chunk if that is more, and bp starts below the old break. */
    static ghost predicate Chosen(mem: Memory, ch: Chain, awords: nat, bp: nat, brk: nat) {
      if NoneFits(mem, ch, awords) then brk == |mem| + Max(awords, CHUNKSIZE) && bp < |mem|
      else Lists(mem, ch) && bp == FirstFit(mem, Candidates(mem, ch, awords), awords) && brk == |mem|
    }

    static lemma ChosenBreak(mem: Memory, ch: Chain, awords: nat, bp: nat, brk: nat)
      requires Chosen(mem, ch, awords, bp, brk)
      ensures brk == |mem| + (if NoneFits(mem, ch, awords) then Max(awords, CHUNKSIZE) else 0)
    {
    }

    // On a heap that mm_init has just made, the one free block is the first chunk, if there is one.
    static lemma FreshFits(mem: Memory, lay: Layout, ch: Chain, awords: nat)
      requires Inv(mem, lay, ch)
      requires |mem| == HEAP + 4
            || (|mem| == HEAP + 4 + CHUNKSIZE && exists b :: b in lay && !lay[b].used && lay[b].size >= CHUNKSIZE)
      ensures NoneFits(mem, ch, awords) <==> |mem| == HEAP + 4 || awords > CHUNKSIZE
    {
      hide Candidates, Fits, Lists, Tags, Match, NoTouch;
      FreshBlocks(lay, |mem| - 1 - FIRST);
      OneBlockFits(mem, lay, ch, awords);
      assert |mem| != HEAP + 4 ==> FIRST in lay && lay[FIRST] == Block(CHUNKSIZE, false);
    }

    static lemma FreshBlocks(lay: Layout, n: nat)
      requires Geometry(lay, FIRST + n) && (n == 0 || exists b :: b in lay && lay[b].size >= n)
      ensures forall b :: b in lay ==> b == FIRST && lay[b].size == n && n > 0
    {
      forall b | b in lay ensures b == FIRST && lay[b].size == n && n > 0 {
        assert Tile(lay, FIRST + n, b);
        var c :| c in lay && lay[c].size >= n;
        assert Tile(lay, FIRST + n, c) && InOrder(lay, c, b);
      }
    }

    // With only one block, find_fit finds it if it is free and fits.
    static lemma OneBlockFits(mem: Memory, lay: Layout, ch: Chain, awords: nat)
      requires Inv(mem, lay, ch) && forall b :: b in lay ==> b == FIRST
      ensures NoneFits(mem, ch, awords) <==> forall b :: b in lay && !lay[b].used ==> lay[b].size < awords
    {
      hide Inv, Examined, GetList, GetNonEmptyList;
      HasLists(mem, lay, ch);
      ExaminedFree(mem, lay, ch, GetNonEmptyList(mem, awords, 0), 0);
      if NoneFits(mem, ch, awords) {
        MissAfterFifty(mem, lay, ch, awords);
        FewSmall(lay, awords);
      }
    }

    static lemma FewSmall(lay: Layout, awords: nat)
      requires forall b :: b in lay ==> b == FIRST
      ensures |TooSmall(lay, awords)| < PATIENCE
    {
      assert TooSmall(lay, awords) == {} || TooSmall(lay, awords) == {FIRST};
    }

    // malloc after the request has been adjusted.
    method Allocate(awords: nat) returns (p: nat)
      requires Valid() && heapListp != 0 && awords >= MIN_BLOCK_SIZE_WORDS && awords % 4 == 0
      modifies this`mem, this`ch, this`lay, this`avail
      ensures Valid() && |mem| + avail == old(|mem| + avail)
      ensures p == 0 ==> Live() == old(Live()) && |mem| == old(|mem|)
      ensures p != 0 ==>
        && p % 4 == 0 && p - 1 !in old(Live()) && p - 1 in Live()
        && Live() == old(Live())[p - 1 := Live()[p - 1]]
        && awords <= |Live()[p - 1]| + 1 < awords + MIN_BLOCK_SIZE_WORDS
      ensures p == 0 <==> NoneFits(old(mem), old(ch), awords) && Refused(old(avail), awords)
      ensures p != 0 ==> Chosen(old(mem), old(ch), awords, p - 1, |mem|)
    {
      hide Inv, NoneFits, Contents, Refused, Chosen;
      var bp := FitOrExtend(awords);
      p := 0;
      if bp != 0 {
        HandOut(bp, awords);
        p := bp + 1;
      }
    }

    // A free block that is large enough, from the lists or from the kernel.
    method FitOrExtend(awords: nat) returns (bp: nat)
      requires Inv(mem, lay, ch) && awords >= MIN_BLOCK_SIZE_WORDS && awords % 4 == 0
      modifies this`mem, this`ch, this`lay, this`avail
      ensures Inv(mem, lay, ch) && Live() == old(Live()) && |mem| + avail == old(|mem| + avail)
      ensures bp != 0 ==> bp in lay && !lay[bp].used && awords <= lay[bp].size
      ensures bp == 0 <==> NoneFits(old(mem), old(ch), awords) && Refused(old(avail), awords)
      ensures bp == 0 ==> |mem| == old(|mem|)
      ensures bp != 0 ==> Chosen(old(mem), old(ch), awords, bp, |mem|)
    {
      hide Inv, Candidates, FirstFit, Fits, Contents;
      HasLists(mem, lay, ch);
      bp := FindFit(awords);
      if bp == 0 {
        bp := ExtendHeap(Max(awords, CHUNKSIZE));
      }
    }

    method HandOut(bp: nat, awords: nat)
      requires Inv(mem, lay, ch) && bp in lay && !lay[bp].used
      requires MIN_BLOCK_SIZE_WORDS <= awords <= lay[bp].size && awords % 4 == 0
      modifies this`mem, this`ch, this`lay
      ensures Inv(mem, lay, ch) && |mem| == old(|mem|) && (bp + 1) % 4 == 0 && bp !in old(Live()) && bp in Live()
      ensures Live() == old(Live())[bp := Live()[bp]] && |Live()[bp]| + 1 == HandedOut(old(lay)[bp].size, awords)
    {
      ElemAligned(mem, lay, bp);
      TakeOff(bp);
      Place(bp, awords);
    }

    static lemma ElemAligned(mem: Memory, lay: Layout, b: nat)
      requires FIRST < |mem| && Geometry(lay, |mem| - 1) && b in lay
      ensures (b + 1) % 4 == 0
    {
      assert Tile(lay, |mem| - 1, b);
    }

    // list_remove (&bp->elem) of a free block.
    method TakeOff(bp: nat)
      requires Inv(mem, lay, ch) && bp in lay && !lay[bp].used
      modifies this`mem, this`ch
      ensures Shape(mem, lay, ch, bp) && Live() == old(Live()) && bp !in Live() && |mem| == old(|mem|)
    {
      Unlisted(mem, lay, ch, bp);
      ShapeMid(mem, lay, ch, 0);
      ListRemove(bp + 1);
    }

    /** The program stores a word into a payload it owns, anywhere from the first word to the
        last: the allocator's state is not disturbed. */
    method Store(p: nat, k: nat, w: Word)
      requires Valid() && p != 0 && p - 1 in Live() && k < |Live()[p - 1]|
      modifies this`mem
      ensures Valid() && |mem| == old(|mem|) && Live() == old(Live())[p - 1 := old(Live())[p - 1][k := w]]
    {
      hide Inv;
      ghost var mem0 := mem;
      BoundaryTags(mem, lay, ch, p - 1);
      StoreAt(p - 1, p + k, w);
      PayloadStored(mem0, mem, p - 1, lay[p - 1].size, k, w);
    }

    static lemma PayloadStored(mem: Memory, mem': Memory, b: nat, size: nat, k: nat, w: Word)
      requires 0 < size && b + size <= |mem| && k < size - 1 && mem' == mem[b + 1 + k := w]
      ensures |Payload(mem, b, size)| == size - 1 && Payload(mem', b, size) == Payload(mem, b, size)[k := w]
    {
    }

    method StoreAt(b: nat, a: nat, w: Word)
      requires Inv(mem, lay, ch) && b in lay && lay[b].used && b < a < Next(lay, b)
      modifies this`mem
      ensures a < old(|mem|) && Inv(mem, lay, ch) && mem == old(mem)[a := w]
      ensures Live() == old(Live())[b := Payload(mem, b, lay[b].size)]
    {
      EndWord(mem, lay, ch, b, a);
      StoreKeeps(mem, mem[a := w], lay, ch, b, a);
      StoreContents(mem, mem[a := w], lay, ch, b, a);
      mem := mem[a := w];
    }

    // A payload word is no tag and no link, even the last word of the block.
    static lemma PayloadWord(mem: Memory, lay: Layout, ch: Chain, b: nat, a: nat)
      requires Shape(mem, lay, ch, 0) && b in lay && lay[b].used && b < a < Next(lay, b)
      ensures forall c :: c in lay ==> a != c && a != Next(lay, c) && (!lay[c].used ==> a != Next(lay, c) - 1)
      ensures forall c :: c in lay && c != b && lay[c].used ==> !(c < a < Next(lay, c))
      ensures forall n :: n in ch ==> a != n && a != n + 1
    {
      var end := |mem| - 1;
      assert Tile(lay, end, b);
      forall c | c in lay
        ensures a != c && a != Next(lay, c) && (c != b ==> a != Next(lay, c) - 1 && !(c < a < Next(lay, c)))
      {
        if c != b { Elsewhere(lay, end, b, c); }
      }
      forall n | n in ch ensures a != n && a != n + 1 {
        assert Backed(lay, n) && Good(mem, ch, n);
        if n >= HEAP { Elsewhere(lay, end, b, n - 1); }
      }
    }

    ghost static predicate OneWord(mem: Memory, mem': Memory, a: nat) {
      |mem'| == |mem| && forall d :: 0 <= d < |mem| && d != a ==> mem'[d] == mem[d]
    }

    static lemma StoreContents(mem: Memory, mem': Memory, lay: Layout, ch: Chain, b: nat, a: nat)
      requires Shape(mem, lay, ch, 0) && b in lay && lay[b].used && b < a < Next(lay, b) && OneWord(mem, mem', a)
      ensures Contents(mem', lay) == Contents(mem, lay)[b := Payload(mem', b, lay[b].size)]
    {
      PayloadWord(mem, lay, ch, b, a);
      forall c | c in lay && lay[c].used && c != b
        ensures Payload(mem', c, lay[c].size) == Payload(mem, c, lay[c].size)
      {
      }
    }

    static lemma StoreKeeps(mem: Memory, mem': Memory, lay: Layout, ch: Chain, b: nat, a: nat)
      requires Inv(mem, lay, ch) && b in lay && lay[b].used && b < a < Next(lay, b) && OneWord(mem, mem', a)
      ensures Inv(mem', lay, ch)
    {
      PayloadWord(mem, lay, ch, b, a);
      EndWord(mem, lay, ch, b, a);
      forall c | c in lay ensures Tagged(mem', lay, c) { assert Tagged(mem, lay, c); }
      forall n | n in ch
        ensures n + 1 < |mem| && mem'[n] == mem[n] && mem'[n + 1] == mem[n + 1]
      {
        assert Good(mem, ch, n);
      }
      ListsFrame(mem, mem', ch);
    }

    static lemma EndWord(mem: Memory, lay: Layout, ch: Chain, b: nat, a: nat)
      requires Shape(mem, lay, ch, 0) && b in lay && b < a < Next(lay, b)
      ensures FIRST < a < |mem| - 1
    {
      assert Tile(lay, |mem| - 1, b);
    }
  }

  // ---------------------------------------------------------------------------------------
  // What the invariant means for the program and for the lists.

  /** Two live blocks never share a word, lie between the fences and start 16-byte aligned. */
  lemma LiveBlocksApart(mem: Memory, lay: Layout, ch: Chain, b: nat, c: nat)
    requires Inv(mem, lay, ch) && b in Contents(mem, lay) && c in Contents(mem, lay) && b != c
    ensures b + |Contents(mem, lay)[b]| < c || c + |Contents(mem, lay)[c]| < b
    ensures FIRST <= b && b + |Contents(mem, lay)[b]| < |mem| - 1 && (b + 1) % 4 == 0
  {
    Elsewhere(lay, |mem| - 1, b, c);
    Heap.ElemAligned(mem, lay, b);
  }

  /** Every word between the fences belongs to exactly one block. */
  lemma HeapIsTiled(mem: Memory, lay: Layout, ch: Chain, a: nat)
    requires Inv(mem, lay, ch) && FIRST <= a < |mem| - 1
    ensures exists b :: b in lay && b <= a < Next(lay, b)
    ensures forall b, c :: b in lay && c in lay && b <= a < Next(lay, b) && c <= a < Next(lay, c) ==> b == c
  {
    TileFrom(lay, |mem| - 1, FIRST, a);
    forall b, c | b in lay && c in lay && b <= a < Next(lay, b) && c <= a < Next(lay, c)
      ensures b == c
    {
      assert InOrder(lay, b, c) && InOrder(lay, c, b);
    }
  }

  lemma {:induction false} TileFrom(lay: Layout, end: nat, b: nat, a: nat)
    requires Geometry(lay, end) && b in lay && b <= a < end
    ensures exists c :: c in lay && c <= a < Next(lay, c)
    decreases end - b
  {
    assert Tile(lay, end, b);
    if a >= Next(lay, b) {
      TileFrom(lay, end, Next(lay, b), a);
    }
  }

  /** Every tag tells the truth: a header its block's size and state, the next header's pinuse bit
      that state again, a footer the size of a free block; and a free block touches no other. */
  lemma BoundaryTags(mem: Memory, lay: Layout, ch: Chain, b: nat)
    requires Inv(mem, lay, ch) && b in lay
    ensures b < Next(lay, b) < |mem| && mem[b].size == lay[b].size && mem[b].inuse == lay[b].used
    ensures mem[Next(lay, b)].pinuse == lay[b].used
    ensures !lay[b].used ==> mem[Next(lay, b) - 1].size == lay[b].size
    ensures !lay[b].used && Next(lay, b) in lay ==> lay[Next(lay, b)].used
  {
    assert Tagged(mem, lay, b);
    assert Tile(lay, |mem| - 1, b);
    var touching := Touching(lay, b);
  }

  /** Before mm_init every list looks non-empty to find_fit, and its first element is the null
      pointer: the block header that the first malloc would read lies below address 0. */
  lemma UninitialisedListsFault(mem: Memory, asize: nat)
    requires |mem| == HEAP && forall a :: 0 <= a < HEAP ==> mem[a] == ZERO
    ensures var i := GetNonEmptyList(mem, asize, 0);
      !ListEmpty(mem, i) && mem[Head(i) + 1].size == 0
  {
  }
}
