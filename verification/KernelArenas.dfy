/** The state of the kernel allocator of src/threads/malloc.c and the invariant its operations keep.
    A block is named by its page and its index in the page; addresses follow from that. */
module KernelArenas {
  import opened Sequences
  import opened Numbers
  import opened Options

  const PGSIZE := 4096
  const HEADER := 12              // sizeof (struct arena)

  datatype Desc = Desc(blockSize: nat, blocksPerArena: nat)
  datatype Arena = Arena(desc: Option<nat>, freeCnt: nat)     // free blocks, or pages of a big block
  datatype Block = Block(page: nat, idx: nat)

  /** arena_to_block, and the start of a big block for index 0. */
  function Address(b: Block, blockSize: nat): nat {
    b.page * PGSIZE + HEADER + b.idx * blockSize
  }

  ghost predicate DescOk(d: Desc) {
    d.blockSize >= 16 && d.blocksPerArena >= 1 && HEADER + d.blocksPerArena * d.blockSize <= PGSIZE
  }

  lemma InPage(i: nat, d: Desc)
    requires DescOk(d) && i < d.blocksPerArena
    ensures HEADER + i * d.blockSize + d.blockSize <= PGSIZE
  {
    MulMono(i + 1, d.blocksPerArena, d.blockSize);
  }

  /** block_to_arena finds the page a block is in. */
  lemma BlockToArena(b: Block, d: Desc)
    requires DescOk(d) && b.idx < d.blocksPerArena
    ensures Address(b, d.blockSize) / PGSIZE == b.page
  {
    InPage(b.idx, d);
    Floor(Address(b, d.blockSize), PGSIZE, b.page);
  }

  /** Blocks of one arena do not overlap. */
  lemma SamePageApart(b: Block, c: Block, d: Desc)
    requires b.page == c.page && b.idx < c.idx
    ensures Address(b, d.blockSize) + d.blockSize <= Address(c, d.blockSize)
  {
    MulMono(b.idx + 1, c.idx, d.blockSize);
  }

  /** Different blocks of a size have different addresses. */
  lemma AddressInjective(b: Block, c: Block, d: Desc)
    requires DescOk(d) && b.idx < d.blocksPerArena && c.idx < d.blocksPerArena
    requires Address(b, d.blockSize) == Address(c, d.blockSize)
    ensures b == c
  {
    BlockToArena(b, d);
    BlockToArena(c, d);
    if b.idx < c.idx { SamePageApart(b, c, d); }
    if c.idx < b.idx { SamePageApart(c, b, d); }
  }

  // ---------------------------------------------------------------------------------------
  // Lists of blocks and lists of addresses.

  /** list_remove of an element known by its address. */
  function Without<T(==)>(s: seq<T>, x: T): seq<T> {
    if s == [] then [] else if s[0] == x then s[1..] else [s[0]] + Without(s[1..], x)
  }

  lemma {:induction false} WithoutHas<T>(s: seq<T>, x: T)
    requires NoDup(s)
    ensures NoDup(Without(s, x))
    ensures forall y :: y in Without(s, x) <==> y in s && y != x
  {
    if s != [] {
      var r := s[1..];
      assert s == [s[0]] + r;
      Tail(s);
      if s[0] != x {
        WithoutHas(r, x);
        Front(s[0], Without(r, x));
      }
    }
  }

  lemma Tail<T>(s: seq<T>)
    requires NoDup(s) && s != []
    ensures NoDup(s[1..]) && s[0] !in s[1..]
  {
    var r := s[1..];
    forall i, j | 0 <= i < j < |r| ensures Differ(r, i, j) { assert Differ(s, i + 1, j + 1); }
    forall i | 0 <= i < |r| ensures r[i] != s[0] { assert Differ(s, 0, i + 1); }
  }

  lemma Front<T>(x: T, s: seq<T>)
    requires NoDup(s) && x !in s
    ensures NoDup([x] + s)
  {
    var n := [x] + s;
    forall i, j | 0 <= i < j < |n| ensures Differ(n, i, j) {
      if i > 0 { assert Differ(s, i - 1, j - 1); }
    }
  }

  ghost function Addresses(s: seq<Block>, blockSize: nat): seq<nat> {
    seq(|s|, i requires 0 <= i < |s| => Address(s[i], blockSize))
  }

  // Free list d holds the addresses of the blocks on it.
  ghost predicate Mirror(freeList: seq<seq<nat>>, lists: seq<seq<Block>>, descs: seq<Desc>, d: int)
    requires 0 <= d < |descs| && |descs| == |lists| == |freeList|
  {
    freeList[d] == Addresses(lists[d], descs[d].blockSize)
  }

  ghost predicate Mirrors(freeList: seq<seq<nat>>, lists: seq<seq<Block>>, descs: seq<Desc>) {
    && |descs| == |lists| == |freeList|
    && forall d {:trigger Mirror(freeList, lists, descs, d)} :: 0 <= d < |descs| ==> Mirror(freeList, lists, descs, d)
  }

  lemma MirrorsUpdate(freeList: seq<seq<nat>>, lists: seq<seq<Block>>, descs: seq<Desc>, d: nat, list: seq<nat>,
                      s: seq<Block>)
    requires Mirrors(freeList, lists, descs) && d < |descs| && list == Addresses(s, descs[d].blockSize)
    ensures Mirrors(freeList[d := list], lists[d := s], descs)
  {
    var f, l := freeList[d := list], lists[d := s];
    forall e | 0 <= e < |descs| ensures Mirror(f, l, descs, e) {
      assert Mirror(freeList, lists, descs, e);
    }
  }

  ghost predicate Fits(s: seq<Block>, d: Desc) {
    forall i :: 0 <= i < |s| ==> s[i].idx < d.blocksPerArena
  }

  lemma {:induction false} AddressesWithout(s: seq<Block>, b: Block, d: Desc)
    requires DescOk(d) && Fits(s, d) && b.idx < d.blocksPerArena
    ensures Without(Addresses(s, d.blockSize), Address(b, d.blockSize)) == Addresses(Without(s, b), d.blockSize)
    decreases |s|
  {
    if s != [] {
      var r := s[1..];
      assert Addresses(s, d.blockSize)[1..] == Addresses(r, d.blockSize);
      if Address(s[0], d.blockSize) == Address(b, d.blockSize) { AddressInjective(s[0], b, d); }
      if s[0] != b {
        AddressesWithout(r, b, d);
        assert Addresses([s[0]] + Without(r, b), d.blockSize)
            == [Address(s[0], d.blockSize)] + Addresses(Without(r, b), d.blockSize);
      }
    }
  }

  // ---------------------------------------------------------------------------------------
  // The invariant.

  /** Ghost view: which indices of each small arena are free, and the free lists by block. */
  datatype View = View(descs: seq<Desc>, arenas: map<nat, Arena>, free: map<nat, set<nat>>, lists: seq<seq<Block>>)
  {
    ghost predicate SmallOf(p: nat, d: nat) {
      p in arenas && arenas[p].desc == Some(d) && d < |descs|
    }

    // The pages an arena occupies, from its own on.
    ghost function Pages(p: nat): nat
      requires p in arenas
    {
      if arenas[p].desc.Some? then 1 else arenas[p].freeCnt
    }

    ghost predicate ArenaOk(p: nat) {
      p in arenas ==>
        && p > 0
        && (arenas[p].desc.Some? ==>
            && arenas[p].desc.value < |descs| && p in free && arenas[p].freeCnt == |free[p]|
            && forall i :: i in free[p] ==> i < descs[arenas[p].desc.value].blocksPerArena)
    }

    ghost predicate Disjoint(p: nat, q: nat) {
      p in arenas && q in arenas && p < q ==> p + Pages(p) <= q
    }

    // b is on list d if and only if it is a free block of that size.
    ghost predicate Listed(d: int, b: Block)
      requires 0 <= d < |lists|
    {
      b in lists[d] <==> SmallOf(b.page, d) && b.page in free && b.idx in free[b.page]
    }

    ghost predicate Inv() {
      && |lists| == |descs| && (forall d :: 0 <= d < |descs| ==> DescOk(descs[d]))
      && (forall p {:trigger ArenaOk(p)} :: ArenaOk(p))
      && (forall p, q {:trigger Disjoint(p, q)} :: Disjoint(p, q))
      && (forall d, b {:trigger Listed(d, b)} :: 0 <= d < |lists| ==> Listed(d, b))
      && (forall d {:trigger NoDup(lists[d])} :: 0 <= d < |lists| ==> NoDup(lists[d]))
    }

    /** A block in the hands of a caller. */
    ghost predicate Live(b: Block) {
      && b.page in arenas
      && (if arenas[b.page].desc.Some?
          then arenas[b.page].desc.value < |descs| && b.idx < descs[arenas[b.page].desc.value].blocksPerArena
               && b.page in free && b.idx !in free[b.page]
          else b.idx == 0)
    }

    // An arena all of whose blocks are free is not kept.
    ghost predicate InUse(p: nat) {
      p in arenas && arenas[p].desc.Some? && arenas[p].desc.value < |descs| ==>
        arenas[p].freeCnt < descs[arenas[p].desc.value].blocksPerArena
    }

    ghost predicate NoneIdle() {
      forall p {:trigger InUse(p)} :: InUse(p)
    }

    ghost function Start(b: Block): nat
      requires Live(b)
    {
      Address(b, if arenas[b.page].desc.Some? then descs[arenas[b.page].desc.value].blockSize else 0)
    }

    /** The bytes a live block has. */
    ghost function Capacity(b: Block): int
      requires Live(b)
    {
      if arenas[b.page].desc.Some? then descs[arenas[b.page].desc.value].blockSize
      else arenas[b.page].freeCnt * PGSIZE - HEADER
    }
  }

  /** Live blocks do not overlap. */
  lemma LiveBlocksApart(v: View, b: Block, c: Block)
    requires v.Inv() && v.Live(b) && v.Live(c) && b != c
    ensures v.Start(b) + v.Capacity(b) <= v.Start(c) || v.Start(c) + v.Capacity(c) <= v.Start(b)
  {
    if b.page == c.page {
      var d := v.descs[v.arenas[b.page].desc.value];
      if b.idx < c.idx { SamePageApart(b, c, d); } else { SamePageApart(c, b, d); }
    } else if b.page < c.page {
      PagesApart(v, b, c);
    } else {
      PagesApart(v, c, b);
    }
  }

  // A block ends within the pages of its arena.
  lemma WithinPages(v: View, b: Block)
    requires v.Inv() && v.Live(b)
    ensures b.page * PGSIZE + HEADER <= v.Start(b)
    ensures v.Start(b) + v.Capacity(b) <= (b.page + v.Pages(b.page)) * PGSIZE
  {
    if v.arenas[b.page].desc.Some? { InPage(b.idx, v.descs[v.arenas[b.page].desc.value]); }
  }

  lemma PagesApart(v: View, b: Block, c: Block)
    requires v.Inv() && v.Live(b) && v.Live(c) && b.page < c.page
    ensures v.Start(b) + v.Capacity(b) <= v.Start(c)
  {
    WithinPages(v, b);
    WithinPages(v, c);
    assert v.Disjoint(b.page, c.page);
    MulMono(b.page + v.Pages(b.page), c.page, PGSIZE);
  }

  /** free_cnt is the number of the arena's blocks on the free list of its descriptor. */
  lemma FreeCountIsExact(v: View, p: nat, d: nat)
    requires v.Inv() && v.SmallOf(p, d)
    ensures v.arenas[p].freeCnt == |set b | b in v.lists[d] && b.page == p|
  {
    assert v.ArenaOk(p);
    var here := set b | b in v.lists[d] && b.page == p;
    forall b ensures b in here <==> b.page == p && b.idx in v.free[p] { assert v.Listed(d, b); }
    CountBlocks(p, v.free[p], here);
  }

  lemma {:induction false} CountBlocks(p: nat, idxs: set<nat>, blocks: set<Block>)
    requires forall b :: b in blocks <==> b.page == p && b.idx in idxs
    ensures |blocks| == |idxs|
    decreases |blocks|
  {
    forall i | i in idxs ensures Block(p, i) in blocks {}
    if blocks == {} {
      assert idxs == {};
    } else {
      var b :| b in blocks;
      CountBlocks(p, idxs - {b.idx}, blocks - {b});
    }
  }

  // ---------------------------------------------------------------------------------------
  // Changes of state.

  // Pages p to p + n are in no arena.
  ghost predicate Unused(v: View, p: nat, n: nat) {
    p > 0 && p !in v.arenas && forall q {:trigger q in v.arenas} :: q in v.arenas ==> q + v.Pages(q) <= p || p + n <= q
  }

  ghost function Indices(n: nat): (s: set<nat>)
    ensures forall i: nat :: i in s <==> i < n
  {
    if n == 0 then {} else Indices(n - 1) + {n - 1}
  }

  lemma {:induction false} IndicesSize(n: nat)
    ensures |Indices(n)| == n
  {
    if n > 0 {
      IndicesSize(n - 1);
    }
  }

  // A set of n indices below n is all of them.
  lemma AllIndices(idxs: set<nat>, n: nat)
    requires |idxs| >= n && forall i :: i in idxs ==> i < n
    ensures idxs == Indices(n)
  {
    IndicesSize(n);
    SubsetFull(idxs, Indices(n));
  }

  lemma SubsetFull(a: set<nat>, b: set<nat>)
    requires a <= b && |a| >= |b|
    ensures a == b
  {
    assert b == a + (b - a);
  }

  ghost function NewBlocks(p: nat, n: nat): seq<Block> {
    seq(n, i requires 0 <= i < n => Block(p, i))
  }

  // A new page cut into blocks of size class d, whose list was empty.
  ghost function AddArena(v: View, p: nat, d: nat): View
    requires d < |v.descs| == |v.lists|
  {
    var n := v.descs[d].blocksPerArena;
    v.(arenas := v.arenas[p := Arena(Some(d), n)], free := v.free[p := Indices(n)],
        lists := v.lists[d := NewBlocks(p, n)])
  }

  lemma AddArenaListed(v: View, p: nat, d: nat)
    requires v.Inv() && d < |v.descs| && v.lists[d] == [] && p !in v.arenas
    ensures forall e, b {:trigger AddArena(v, p, d).Listed(e, b)} :: 0 <= e < |v.lists| ==>
      AddArena(v, p, d).Listed(e, b)
    ensures forall e {:trigger NoDup(AddArena(v, p, d).lists[e])} :: 0 <= e < |v.lists| ==>
      NoDup(AddArena(v, p, d).lists[e])
  {
    var w := AddArena(v, p, d);
    var n := v.descs[d].blocksPerArena;
    forall e, b | 0 <= e < |v.lists| ensures w.Listed(e, b) {
      assert v.Listed(e, b);
      if e == d && b.page == p && b.idx < n { assert NewBlocks(p, n)[b.idx] == b; }
    }
    forall e | 0 <= e < |v.lists| ensures NoDup(w.lists[e]) {
      if e == d {
        forall i, j | 0 <= i < j < n ensures Differ(NewBlocks(p, n), i, j) {}
      } else {
        assert NoDup(v.lists[e]);
      }
    }
  }

  lemma AddArenaInv(v: View, p: nat, d: nat)
    requires v.Inv() && d < |v.descs| && v.lists[d] == [] && Unused(v, p, 1)
    ensures AddArena(v, p, d).Inv()
    ensures forall b :: AddArena(v, p, d).Live(b) <==> v.Live(b)
  {
    var w := AddArena(v, p, d);
    AddArenaListed(v, p, d);
    IndicesSize(v.descs[d].blocksPerArena);
    forall q ensures w.ArenaOk(q) { assert v.ArenaOk(q); }
    forall q, r ensures w.Disjoint(q, r) { assert v.Disjoint(q, r); }
  }

  // The first block of list d goes to a caller.
  ghost function Take(v: View, d: nat): View
    requires v.Inv() && d < |v.descs| && v.lists[d] != []
  {
    var b := v.lists[d][0];
    assert v.Listed(d, b);
    assert v.ArenaOk(b.page);
    v.(arenas := v.arenas[b.page := Arena(Some(d), v.arenas[b.page].freeCnt - 1)],
       free := v.free[b.page := v.free[b.page] - {b.idx}], lists := v.lists[d := v.lists[d][1..]])
  }

  lemma TakeListed(v: View, d: nat)
    requires v.Inv() && d < |v.descs| && v.lists[d] != []
    ensures forall e, b {:trigger Take(v, d).Listed(e, b)} :: 0 <= e < |v.lists| ==> Take(v, d).Listed(e, b)
    ensures forall e {:trigger NoDup(Take(v, d).lists[e])} :: 0 <= e < |v.lists| ==> NoDup(Take(v, d).lists[e])
  {
    var w := Take(v, d);
    var s := v.lists[d];
    assert v.Listed(d, s[0]);
    assert NoDup(s);
    Tail(s);
    assert s == [s[0]] + s[1..];
    forall e, b | 0 <= e < |v.lists| ensures w.Listed(e, b) { assert v.Listed(e, b); }
    forall e | 0 <= e < |v.lists| ensures NoDup(w.lists[e]) { assert NoDup(v.lists[e]); }
  }

  lemma TakeInv(v: View, d: nat)
    requires v.Inv() && d < |v.descs| && v.lists[d] != []
    ensures Take(v, d).Inv() && v.SmallOf(v.lists[d][0].page, d) && !v.Live(v.lists[d][0])
    ensures forall b :: Take(v, d).Live(b) <==> v.Live(b) || b == v.lists[d][0]
  {
    var w := Take(v, d);
    TakeListed(v, d);
    assert v.Listed(d, v.lists[d][0]);
    assert v.ArenaOk(v.lists[d][0].page);
    forall q ensures w.ArenaOk(q) { assert v.ArenaOk(q); }
    forall q, r ensures w.Disjoint(q, r) { assert v.Disjoint(q, r); }
  }

  // A live block of size class d goes to the front of its list.
  ghost function Give(v: View, b: Block, d: nat): View
    requires d < |v.lists| && b.page in v.arenas && b.page in v.free
  {
    v.(arenas := v.arenas[b.page := Arena(Some(d), v.arenas[b.page].freeCnt + 1)],
       free := v.free[b.page := v.free[b.page] + {b.idx}], lists := v.lists[d := [b] + v.lists[d]])
  }

  lemma GiveListed(v: View, b: Block, d: nat)
    requires v.Inv() && v.SmallOf(b.page, d) && v.Live(b)
    ensures forall e, x {:trigger Give(v, b, d).Listed(e, x)} :: 0 <= e < |v.lists| ==> Give(v, b, d).Listed(e, x)
    ensures forall e {:trigger NoDup(Give(v, b, d).lists[e])} :: 0 <= e < |v.lists| ==> NoDup(Give(v, b, d).lists[e])
  {
    var w := Give(v, b, d);
    assert v.Listed(d, b);
    assert NoDup(v.lists[d]);
    Front(b, v.lists[d]);
    forall e, x | 0 <= e < |v.lists| ensures w.Listed(e, x) { assert v.Listed(e, x); }
    forall e | 0 <= e < |v.lists| ensures NoDup(w.lists[e]) { assert NoDup(v.lists[e]); }
  }

  lemma GiveInv(v: View, b: Block, d: nat)
    requires v.Inv() && v.SmallOf(b.page, d) && v.Live(b)
    ensures Give(v, b, d).Inv()
    ensures forall x :: Give(v, b, d).Live(x) <==> v.Live(x) && x != b
  {
    var w := Give(v, b, d);
    GiveListed(v, b, d);
    assert v.ArenaOk(b.page);
    forall q ensures w.ArenaOk(q) { assert v.ArenaOk(q); }
    forall q, r ensures w.Disjoint(q, r) { assert v.Disjoint(q, r); }
  }

  // An arena all of whose blocks are free gives its page back; s is its list without them.
  ghost function DropArena(v: View, p: nat, d: nat, s: seq<Block>): View
    requires d < |v.lists|
  {
    v.(arenas := v.arenas - {p}, free := v.free - {p}, lists := v.lists[d := s])
  }

  ghost predicate Purged(v: View, p: nat, d: nat, s: seq<Block>)
    requires d < |v.lists|
  {
    NoDup(s) && forall b :: b in s <==> b in v.lists[d] && b.page != p
  }

  lemma DropArenaInv(v: View, p: nat, d: nat, s: seq<Block>)
    requires v.Inv() && v.SmallOf(p, d) && Purged(v, p, d, s)
    requires v.arenas[p].freeCnt >= v.descs[d].blocksPerArena
    ensures DropArena(v, p, d, s).Inv()
    ensures forall b :: DropArena(v, p, d, s).Live(b) <==> v.Live(b)
  {
    var w := DropArena(v, p, d, s);
    assert v.ArenaOk(p);
    AllIndices(v.free[p], v.descs[d].blocksPerArena);
    forall e, b | 0 <= e < |v.lists| ensures w.Listed(e, b) { assert v.Listed(e, b); }
    forall e | 0 <= e < |v.lists| ensures NoDup(w.lists[e]) { assert NoDup(v.lists[e]); }
    forall q ensures w.ArenaOk(q) { assert v.ArenaOk(q); }
    forall q, r ensures w.Disjoint(q, r) { assert v.Disjoint(q, r); }
  }

  lemma AddBigInv(v: View, p: nat, n: nat)
    requires v.Inv() && Unused(v, p, n)
    ensures var w := v.(arenas := v.arenas[p := Arena(None, n)]);
            w.Inv() && forall b :: w.Live(b) <==> v.Live(b) || b == Block(p, 0)
  {
    var w := v.(arenas := v.arenas[p := Arena(None, n)]);
    forall e, b | 0 <= e < |v.lists| ensures w.Listed(e, b) { assert v.Listed(e, b); }
    forall q ensures w.ArenaOk(q) { assert v.ArenaOk(q); }
    forall q, r ensures w.Disjoint(q, r) { assert v.Disjoint(q, r); }
  }

  lemma DropBigInv(v: View, p: nat)
    requires v.Inv() && p in v.arenas && v.arenas[p].desc.None?
    ensures var w := v.(arenas := v.arenas - {p});
            w.Inv() && forall b :: w.Live(b) <==> v.Live(b) && b != Block(p, 0)
  {
    var w := v.(arenas := v.arenas - {p});
    forall e, b | 0 <= e < |v.lists| ensures w.Listed(e, b) { assert v.Listed(e, b); }
    forall q ensures w.ArenaOk(q) { assert v.ArenaOk(q); }
    forall q, r ensures w.Disjoint(q, r) { assert v.Disjoint(q, r); }
  }

  lemma AtMostAll(v: View, p: nat, d: nat)
    requires v.Inv() && v.SmallOf(p, d)
    ensures v.arenas[p].freeCnt <= v.descs[d].blocksPerArena
  {
    assert v.ArenaOk(p);
    IndicesSize(v.descs[d].blocksPerArena);
    SubsetSize(v.free[p], Indices(v.descs[d].blocksPerArena));
  }

  lemma SubsetSize(a: set<nat>, b: set<nat>)
    requires a <= b
    ensures |a| <= |b|
  {
    assert b == a + (b - a);
  }

  // Taking a block makes its arena busy.
  lemma TakeNoneIdle(v: View, d: nat)
    requires v.Inv() && d < |v.descs| && v.lists[d] != []
    requires forall p {:trigger v.InUse(p)} :: p != v.lists[d][0].page ==> v.InUse(p)
    ensures Take(v, d).NoneIdle()
  {
    TakeInv(v, d);
    AtMostAll(v, v.lists[d][0].page, d);
    forall p ensures Take(v, d).InUse(p) { if p != v.lists[d][0].page { assert v.InUse(p); } }
  }

  lemma MissingIndex(s: set<nat>, n: nat) returns (i: nat)
    requires |s| < n && forall j :: j in s ==> j < n
    ensures i < n && i !in s
  {
    IndicesSize(n);
    if Indices(n) <= s { SubsetSize(Indices(n), s); }
    i :| i in Indices(n) && i !in s;
  }

  /** An arena keeps its page if and only if another of its blocks is live. */
  lemma LastBlock(v: View, b: Block, d: nat)
    requires v.Inv() && v.SmallOf(b.page, d) && v.Live(b)
    ensures v.arenas[b.page].freeCnt + 1 >= v.descs[d].blocksPerArena
       <==> forall x :: v.Live(x) && x.page == b.page ==> x == b
  {
    var w := Give(v, b, d);
    var n := v.descs[d].blocksPerArena;
    GiveInv(v, b, d);
    assert w.ArenaOk(b.page);
    if w.arenas[b.page].freeCnt >= n {
      AllIndices(w.free[b.page], n);
      forall x | v.Live(x) && x.page == b.page ensures x == b { assert x.idx in w.free[b.page]; }
    } else {
      var i := MissingIndex(w.free[b.page], n);
      assert v.Live(Block(b.page, i));
    }
  }

  lemma GiveNoneIdle(v: View, b: Block, d: nat)
    requires v.NoneIdle() && v.SmallOf(b.page, d) && d < |v.lists| && b.page in v.free
    requires v.arenas[b.page].freeCnt + 1 < v.descs[d].blocksPerArena
    ensures Give(v, b, d).NoneIdle()
  {
    forall p ensures Give(v, b, d).InUse(p) { assert v.InUse(p); }
  }

  lemma GiveDropNoneIdle(v: View, b: Block, d: nat, s: seq<Block>)
    requires v.NoneIdle() && v.SmallOf(b.page, d) && d < |v.lists| && b.page in v.free
    ensures DropArena(Give(v, b, d), b.page, d, s).NoneIdle()
  {
    forall p ensures DropArena(Give(v, b, d), b.page, d, s).InUse(p) { assert v.InUse(p); }
  }

  // One step of the loop that takes the blocks of an arena off their list.
  ghost predicate PurgedTo(v: View, p: nat, d: nat, i: nat, s: seq<Block>)
    requires d < |v.lists|
  {
    NoDup(s) && forall b :: b in s <==> b in v.lists[d] && !(b.page == p && b.idx < i)
  }

  lemma PurgeStep(v: View, p: nat, d: nat, i: nat, s: seq<Block>)
    requires d < |v.lists| && PurgedTo(v, p, d, i, s)
    ensures PurgedTo(v, p, d, i + 1, Without(s, Block(p, i)))
  {
    WithoutHas(s, Block(p, i));
  }

  lemma PurgeDone(v: View, p: nat, d: nat, s: seq<Block>)
    requires v.Inv() && v.SmallOf(p, d) && PurgedTo(v, p, d, v.descs[d].blocksPerArena, s)
    ensures Purged(v, p, d, s)
  {
    forall b | b in v.lists[d] && b.page == p ensures b.idx < v.descs[d].blocksPerArena {
      assert v.Listed(d, b) && v.ArenaOk(p);
    }
  }

  lemma ListFits(v: View, d: nat)
    requires v.Inv() && d < |v.descs|
    ensures Fits(v.lists[d], v.descs[d])
  {
    forall i | 0 <= i < |v.lists[d]| ensures v.lists[d][i].idx < v.descs[d].blocksPerArena {
      var b := v.lists[d][i];
      assert v.Listed(d, b) && v.ArenaOk(b.page);
    }
  }
}
