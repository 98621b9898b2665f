/** malloc and free of src/threads/malloc.c. The page allocator is a parameter of malloc: it names
    the first of the pages it grants, or 0. */
module KernelMalloc {
  import opened Sequences
  import opened Numbers
  import opened Options
  import opened KernelArenas

  const SIZE_LIMIT := 0x1_0000_0000         // size_t has 32 bits

  // DIV_ROUND_UP (size + sizeof *a, PGSIZE) in size_t.
  function PageCount(size: nat): nat {
    ((size + HEADER) % SIZE_LIMIT + (PGSIZE - 1)) % SIZE_LIMIT / PGSIZE
  }

  /** The pages of a big block are the fewest that hold the request, as long as the rounding does not
      wrap around.  Of the sizes where it does, all but the last eleven come out as no page at all,
      and those eleven as a single page. */
  lemma PageCountIs(size: nat)
    requires size < SIZE_LIMIT
    ensures size + HEADER + PGSIZE - 1 < SIZE_LIMIT ==>
      (PageCount(size) - 1) * PGSIZE < size + HEADER <= PageCount(size) * PGSIZE
    ensures SIZE_LIMIT <= size + HEADER + PGSIZE - 1 && size + HEADER <= SIZE_LIMIT ==> PageCount(size) == 0
    ensures SIZE_LIMIT < size + HEADER ==> PageCount(size) == 1
  {
  }

  /** A request for all but one byte of the address range gets one page. */
  lemma HugeRequestGetsOnePage()
    ensures PageCount(0xFFFF_FFFF) == 1
  {
  }

  function BlocksPerArena(blockSize: nat): nat
    requires blockSize > 0
  {
    (PGSIZE - HEADER) / blockSize
  }

  // An arena has no room for another block.
  ghost predicate AsManyAsFit(d: Desc) {
    HEADER + d.blocksPerArena * d.blockSize <= PGSIZE < HEADER + (d.blocksPerArena + 1) * d.blockSize
  }

  // Class d is the smallest whose blocks hold size bytes.
  ghost predicate Serves(descs: seq<Desc>, size: nat, d: nat) {
    d < |descs| && size <= descs[d].blockSize && forall e :: 0 <= e < d ==> descs[e].blockSize < size
  }

  class Allocator {
    var descs: seq<Desc>
    var freeList: seq<seq<nat>>             // addresses
    var arenas: map<nat, Arena>             // headers, by page number
    ghost var free: map<nat, set<nat>>
    ghost var lists: seq<seq<Block>>

    ghost function V(): View
      reads this
    {
      View(descs, arenas, free, lists)
    }

    ghost predicate Consistent()
      reads this
    {
      V().Inv() && Mirrors(freeList, lists, descs)
    }

    ghost predicate Valid()
      reads this
    {
      Consistent() && V().NoneIdle()
    }

    /** malloc_init: seven size classes, from 16 bytes to 1 kB. */
    constructor ()
      ensures Valid() && arenas == map[] && |descs| == 7
      ensures forall d :: 0 <= d < 7 ==> descs[d].blockSize == 16 * Pow2(d) && AsManyAsFit(descs[d])
    {
      var ds: seq<Desc> := [];
      var blockSize := 16;
      while blockSize < PGSIZE / 2
        invariant blockSize == 16 * Pow2(|ds|) && |ds| <= 7 && (|ds| == 7 <==> blockSize >= PGSIZE / 2)
        invariant forall d :: 0 <= d < |ds| ==> ds[d].blockSize == 16 * Pow2(d) && DescOk(ds[d]) && AsManyAsFit(ds[d])
        decreases 7 - |ds|
      {
        SizeClass(|ds|, blockSize);
        ds := ds + [Desc(blockSize, BlocksPerArena(blockSize))];
        blockSize := blockSize * 2;
      }
      descs := ds;
      freeList := seq(|ds|, i => []);
      arenas := map[];
      free := map[];
      lists := seq(|ds|, i => []);
    }

    // The loop of malloc that picks the size class.
    method FindDesc(size: nat) returns (d: nat)
      ensures d <= |descs| && (d < |descs| ==> descs[d].blockSize >= size)
      ensures forall e :: 0 <= e < d ==> descs[e].blockSize < size
    {
      d := 0;
      while d < |descs| && descs[d].blockSize < size
        invariant d <= |descs| && forall e :: 0 <= e < d ==> descs[e].blockSize < size
      {
        d := d + 1;
      }
    }

    // A fresh page becomes an arena and its blocks fill the empty list d.
    method NewArena(page: nat, d: nat)
      requires Consistent() && d < |descs| && lists[d] == [] && Unused(V(), page, 1)
      modifies this
      ensures Consistent() && V() == AddArena(old(V()), page, d) && OnlyList(old(freeList), freeList, d)
    {
      AddArenaInv(V(), page, d);
      var list := CutPage(page, descs[d]);
      MirrorsUpdate(freeList, lists, descs, d, list, NewBlocks(page, descs[d].blocksPerArena));
      arenas := arenas[page := Arena(Some(d), descs[d].blocksPerArena)];
      free := free[page := Indices(descs[d].blocksPerArena)];
      lists := lists[d := NewBlocks(page, descs[d].blocksPerArena)];
      freeList := freeList[d := list];
    }

    // The loop of malloc over the blocks of a new arena.
    method CutPage(page: nat, d: Desc) returns (list: seq<nat>)
      ensures list == Addresses(NewBlocks(page, d.blocksPerArena), d.blockSize)
    {
      list := [];
      var i := 0;
      while i < d.blocksPerArena
        invariant i <= d.blocksPerArena && list == Addresses(NewBlocks(page, i), d.blockSize)
      {
        list := list + [Address(Block(page, i), d.blockSize)];
        i := i + 1;
      }
    }

    // The first block of a list that is not empty.
    method Pop(d: nat) returns (r: nat, ghost b: Block)
      requires Consistent() && d < |descs| && lists[d] != []
      modifies this
      ensures Consistent() && V() == Take(old(V()), d) && b == old(lists)[d][0] && r == Address(b, descs[d].blockSize)
      ensures old(freeList)[d] != [] && r == old(freeList)[d][0]
      ensures freeList == old(freeList)[d := old(freeList)[d][1..]]
    {
      ghost var v := V();
      TakeInv(v, d);
      b := lists[d][0];
      assert v.Listed(d, b) && v.ArenaOk(b.page);
      BlockToArena(b, descs[d]);
      assert Mirror(freeList, lists, descs, d);
      r := freeList[d][0];
      var page := r / PGSIZE;
      MirrorsUpdate(freeList, lists, descs, d, freeList[d][1..], lists[d][1..]);
      arenas := arenas[page := Arena(arenas[page].desc, arenas[page].freeCnt - 1)];
      free := free[b.page := free[b.page] - {b.idx}];
      lists := lists[d := lists[d][1..]];
      freeList := freeList[d := freeList[d][1..]];
    }
  
    // A request too big for every size class.
    method MallocBig(size: nat, page: nat) returns (r: nat, ghost b: Block)
      requires Valid() && size < SIZE_LIMIT && forall d :: 0 <= d < |descs| ==> descs[d].blockSize < size
      requires page != 0 ==> PageCount(size) > 0 && Unused(V(), page, PageCount(size))
      modifies this
      ensures Valid() && Granted(old(V()), V(), size, r, b)
      ensures r == 0 <==> page == 0
      ensures freeList == old(freeList)
      ensures r != 0 ==> r == page * PGSIZE + HEADER && V().Capacity(b) == PageCount(size) * PGSIZE - HEADER
    {
      b := Block(page, 0);
      if page == 0 {
        return 0, b;
      }
      AddBigInv(V(), page, PageCount(size));
      PageCountIs(size);
      ghost var v := V();
      ghost var w := v.(arenas := v.arenas[page := Arena(None, PageCount(size))]);
      forall p ensures w.InUse(p) { assert v.InUse(p); }
      arenas := arenas[page := Arena(None, PageCount(size))];
      r := page * PGSIZE + HEADER;
    }

    // List d is not empty any more, if there is memory.
    method Stock(d: nat, page: nat) returns (ok: bool)
      requires Valid() && d < |descs|
      requires page != 0 ==> Unused(V(), page, 1)
      modifies this
      ensures ok <==> old(freeList)[d] != [] || page != 0
      ensures !ok ==> Valid() && V() == old(V())
      ensures ok ==> Consistent() && SameLive(old(V()), V()) && lists[d] != []
      ensures ok ==> forall p {:trigger V().InUse(p)} :: p != lists[d][0].page ==> V().InUse(p)
      ensures ok ==> descs == old(descs)
      ensures OnlyList(old(freeList), freeList, d) && (old(freeList)[d] != [] ==> freeList == old(freeList))
      ensures ok ==> freeList[d] != [] && freeList[d][0] == FirstFree(old(freeList)[d], page)
    {
      ghost var v := V();
      assert Mirror(freeList, lists, descs, d);
      ok := true;
      if freeList[d] == [] {
        if page == 0 {
          return false;
        }
        AddArenaInv(v, page, d);
        NewArena(page, d);
        assert DescOk(descs[d]);
        assert lists[d][0] == Block(page, 0);
        assert Mirror(freeList, lists, descs, d);
        forall p | p != page ensures V().InUse(p) { assert v.InUse(p); }
      } else {
        forall p ensures V().InUse(p) { assert v.InUse(p); }
      }
    }

    // No free list but d changes.
    static ghost predicate OnlyList(before: seq<seq<nat>>, after: seq<seq<nat>>, d: nat) {
      d < |after| && |before| == |after| && forall e :: 0 <= e < |after| && e != d ==> after[e] == before[e]
    }

    // The first block of a free list, or of a page that is to stock it.
    static function FirstFree(list: seq<nat>, page: nat): nat {
      if list != [] then list[0] else page * PGSIZE + HEADER
    }

    // A request of size class d.
    method MallocSmall(size: nat, d: nat, page: nat) returns (r: nat, ghost b: Block)
      requires Valid() && d < |descs| && size <= descs[d].blockSize
      requires page != 0 ==> Unused(V(), page, 1)
      modifies this
      ensures Valid() && Granted(old(V()), V(), size, r, b)
      ensures r == 0 <==> old(freeList)[d] == [] && page == 0
      ensures r != 0 ==> V().Capacity(b) == old(descs)[d].blockSize
      ensures r != 0 ==> r == FirstFree(old(freeList)[d], page)
      ensures OnlyList(old(freeList), freeList, d)
      ensures old(freeList)[d] != [] ==> freeList[d] == old(freeList)[d][1..]
    {
      b := Block(page, 0);
      r := 0;
      ghost var v := V();
      var ok := Stock(d, page);
      if ok {
        TakeNoneIdle(V(), d);
        TakeGranted(v, V(), d, size);
        r, b := Pop(d);
      }
    }

    /** malloc: a block no caller has, or null, and null exactly for an empty request or when the page
        allocator grants nothing that is needed.  It is the first free block of the smallest class
        that is large enough, or the first of a new page, or whole pages.  It is as big as asked for,
        except in one case: the request is one of the eleven largest and there is a free page, which it gets. */
    method Malloc(size: nat, palloc: nat -> nat) returns (r: nat, ghost b: Block)
      requires Valid() && size < SIZE_LIMIT
      requires palloc(0) == 0 && forall n {:trigger palloc(n)} :: palloc(n) != 0 ==> Unused(V(), palloc(n), n)
      modifies this
      ensures Valid() && Granted(old(V()), V(), size, r, b)
      ensures forall d: nat :: Serves(old(descs), size, d) ==>
        && (r == 0 <==> size == 0 || (old(freeList)[d] == [] && palloc(1) == 0))
        && (r != 0 ==> V().Capacity(b) == old(descs)[d].blockSize)
        && (r != 0 ==> r == FirstFree(old(freeList)[d], palloc(1)) && OnlyList(old(freeList), freeList, d))
        && (r != 0 && old(freeList)[d] != [] ==> freeList[d] == old(freeList)[d][1..])
      ensures (forall d: nat :: !Serves(old(descs), size, d)) ==>
        && (r == 0 <==> size == 0 || palloc(PageCount(size)) == 0)
        && (r != 0 ==> r == palloc(PageCount(size)) * PGSIZE + HEADER && freeList == old(freeList))
        && (r != 0 ==> V().Capacity(b) == PageCount(size) * PGSIZE - HEADER)
      ensures r != 0 && V().Capacity(b) < size <==> size + HEADER > SIZE_LIMIT && palloc(1) != 0
    {
      b := Block(0, 0);
      if size == 0 {
        return 0, b;
      }
      NoClassIsHuge(V(), size);
      var d := FindDesc(size);
      if d == |descs| {
        PageCountIs(size);
        r, b := MallocBig(size, palloc(PageCount(size)));
      } else {
        assert Serves(descs, size, d);
        r, b := MallocSmall(size, d, palloc(1));
      }
    }

    // list_push_front of a block that its caller gave up.
    method Push(p: nat, d: nat, ghost b: Block)
      requires Consistent() && V().SmallOf(b.page, d) && V().Live(b) && p == Address(b, descs[d].blockSize)
      modifies this
      ensures Consistent() && V() == Give(old(V()), b, d)
      ensures freeList == old(freeList)[d := [p] + old(freeList)[d]]
    {
      GiveInv(V(), b, d);
      assert V().ArenaOk(b.page);
      BlockToArena(b, descs[d]);
      var page := p / PGSIZE;
      assert Mirror(freeList, lists, descs, d);
      MirrorsUpdate(freeList, lists, descs, d, [p] + freeList[d], [b] + lists[d]);
      arenas := arenas[page := Arena(arenas[page].desc, arenas[page].freeCnt + 1)];
      free := free[b.page := free[b.page] + {b.idx}];
      lists := lists[d := [b] + lists[d]];
      freeList := freeList[d := [p] + freeList[d]];
    }

    // The loop of free over the blocks of an arena that is entirely unused.
    method Purge(page: nat, d: nat) returns (list: seq<nat>, ghost s: seq<Block>)
      requires Consistent() && V().SmallOf(page, d)
      ensures Purged(V(), page, d, s) && list == Addresses(s, descs[d].blockSize)
    {
      list := freeList[d];
      s := lists[d];
      assert Mirror(freeList, lists, descs, d);
      assert NoDup(lists[d]);
      ListFits(V(), d);
      var i := 0;
      while i < descs[d].blocksPerArena
        invariant i <= descs[d].blocksPerArena && PurgedTo(V(), page, d, i, s)
        invariant list == Addresses(s, descs[d].blockSize) && Fits(s, descs[d])
      {
        PurgeStep(V(), page, d, i, s);
        AddressesWithout(s, Block(page, i), descs[d]);
        WithoutFits(s, Block(page, i), descs[d]);
        list := Without(list, Address(Block(page, i), descs[d].blockSize));
        s := Without(s, Block(page, i));
        i := i + 1;
      }
      PurgeDone(V(), page, d, s);
    }

    // palloc_free_page of an arena that is entirely unused.
    method Reclaim(page: nat, d: nat) returns (ghost s: seq<Block>)
      requires Consistent() && V().SmallOf(page, d) && arenas[page].freeCnt >= descs[d].blocksPerArena
      modifies this
      ensures Consistent() && d < |old(lists)| && Purged(old(V()), page, d, s) && V() == DropArena(old(V()), page, d, s)
      ensures OnlyList(old(freeList), freeList, d)
    {
      AtMostAll(V(), page, d);
      assert arenas[page].freeCnt == descs[d].blocksPerArena;
      var list;
      list, s := Purge(page, d);
      DropArenaInv(V(), page, d, s);
      MirrorsUpdate(freeList, lists, descs, d, list, s);
      freeList := freeList[d := list];
      lists := lists[d := s];
      arenas := arenas - {page};
      free := free - {page};
    }

    method FreeSmall(p: nat, d: nat, ghost b: Block)
      requires Valid() && V().SmallOf(b.page, d) && V().Live(b) && p == Address(b, descs[d].blockSize)
      modifies this
      ensures Valid() && Released(old(V()), V(), b) && OnlyList(old(freeList), freeList, d)
      ensures b.page in arenas ==> freeList[d] == [p] + old(freeList)[d]
    {
      ghost var v := V();
      GiveInv(v, b, d);
      LastBlock(v, b, d);
      BlockToArena(b, descs[d]);
      Push(p, d, b);
      var page := p / PGSIZE;
      if arenas[page].freeCnt >= descs[d].blocksPerArena {
        ghost var w := V();
        ghost var s := Reclaim(page, d);
        DropArenaInv(w, page, d, s);
        GiveDropNoneIdle(v, b, d, s);
      } else {
        GiveNoneIdle(v, b, d);
      }
    }

    /** free: the block is no longer live, and its page goes back exactly when no other block in it
        is live; otherwise the block comes to the front of its free list. */
    method Free(p: nat, ghost b: Block)
      requires Valid() && (p != 0 ==> V().Live(b) && p == V().Start(b))
      modifies this
      ensures Valid()
      ensures p == 0 ==> V() == old(V())
      ensures p == 0 || old(arenas)[b.page].desc.None? ==> freeList == old(freeList)
      ensures p != 0 ==> Released(old(V()), V(), b)
      ensures p != 0 && old(arenas)[b.page].desc.Some? ==>
        var d := old(arenas)[b.page].desc.value;
        && OnlyList(old(freeList), freeList, d)
        && (b.page in arenas ==> freeList[d] == [p] + old(freeList)[d])
    {
      if p != 0 {
        ghost var v := V();
        assert v.ArenaOk(b.page);
        StartPage(v, b);
        var page := p / PGSIZE;
        if arenas[page].desc.Some? {
          FreeSmall(p, arenas[page].desc.value, b);
        } else {
          DropBigInv(v, page);
          ghost var w := v.(arenas := v.arenas - {page});
          forall q ensures w.InUse(q) { assert v.InUse(q); }
          arenas := arenas - {page};
        }
      }
    }
  }

  /** A free-list entry lies in an arena that is still held, so no entry outlives its page. */
  lemma EntriesLieInArenas(v: View, freeList: seq<seq<nat>>, d: nat, k: nat)
    requires v.Inv() && Mirrors(freeList, v.lists, v.descs) && d < |v.descs| && k < |freeList[d]|
    ensures freeList[d][k] / PGSIZE in v.arenas && v.arenas[freeList[d][k] / PGSIZE].desc == Some(d)
  {
    assert Mirror(freeList, v.lists, v.descs, d);
    var b := v.lists[d][k];
    assert v.Listed(d, b) && v.ArenaOk(b.page);
    BlockToArena(b, v.descs[d]);
  }

  lemma StartPage(v: View, b: Block)
    requires v.Inv() && v.Live(b)
    ensures v.Start(b) / PGSIZE == b.page
  {
    if v.arenas[b.page].desc.Some? {
      BlockToArena(b, v.descs[v.arenas[b.page].desc.value]);
    } else {
      Floor(v.Start(b), PGSIZE, b.page);
    }
  }

  lemma {:induction false} WithoutFits(s: seq<Block>, b: Block, d: Desc)
    requires Fits(s, d)
    ensures Fits(Without(s, b), d)
  {
    if s != [] {
      WithoutFits(s[1..], b, d);
    }
  }

  // Blocks that stay live stay where and what they are.
  ghost predicate Undisturbed(v: View, w: View) {
    forall x :: v.Live(x) && w.Live(x) ==> w.Start(x) == v.Start(x) && w.Capacity(x) == v.Capacity(x)
  }

  ghost predicate SameLive(v: View, w: View) {
    w.descs == v.descs && (forall x :: w.Live(x) <==> v.Live(x)) && Undisturbed(v, w)
  }

  lemma TakeGranted(v: View, w: View, d: nat, size: nat)
    requires w.Inv() && SameLive(v, w) && d < |w.descs| && w.lists[d] != [] && size <= w.descs[d].blockSize
    ensures Granted(v, Take(w, d), size, Address(w.lists[d][0], w.descs[d].blockSize), w.lists[d][0])
  {
    TakeInv(w, d);
    assert DescOk(w.descs[d]);
    InPage(0, w.descs[d]);
  }

  lemma NoClassIsHuge(v: View, size: nat)
    requires v.Inv()
    ensures forall d: nat :: Serves(v.descs, size, d) ==> size <= PGSIZE
  {
    forall d: nat | Serves(v.descs, size, d) ensures size <= PGSIZE {
      assert DescOk(v.descs[d]);
      InPage(0, v.descs[d]);
    }
  }

  // What malloc of size bytes promises when it returns r, the block b.
  ghost predicate Granted(v: View, w: View, size: nat, r: nat, b: Block) {
    && (r == 0 ==> w == v)
    && (r != 0 ==>
        && !v.Live(b) && w.Live(b) && r == w.Start(b) && Undisturbed(v, w)
        && (forall x :: w.Live(x) <==> v.Live(x) || x == b)
        && (size <= w.Capacity(b) <==> size + HEADER <= SIZE_LIMIT))
  }

  // What free of block b promises.
  ghost predicate Released(v: View, w: View, b: Block) {
    && (forall x :: w.Live(x) <==> v.Live(x) && x != b) && Undisturbed(v, w)
    && (b.page !in w.arenas <==> forall x :: v.Live(x) && x.page == b.page ==> x == b)
  }

  lemma SizeClass(k: nat, blockSize: nat)
    requires k <= 6 && blockSize == 16 * Pow2(k) && blockSize > 0
    ensures DescOk(Desc(blockSize, BlocksPerArena(blockSize))) && AsManyAsFit(Desc(blockSize, BlocksPerArena(blockSize)))
    ensures 2 * blockSize >= PGSIZE / 2 <==> k == 6
  {
    assert Pow2(0) == 1 && Pow2(1) == 2 && Pow2(2) == 4;
    assert Pow2(3) == 8 && Pow2(4) == 16;
    assert Pow2(5) == 32 && Pow2(6) == 64;
  }
}
