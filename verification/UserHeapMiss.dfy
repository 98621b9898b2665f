/** A heap on which find_fit of src/lib/user/malloc.c misses a block that fits: fifty free blocks of
    8 words and a last one of 12, all on list 3, with blocks in use between them. */
module UserHeapMiss {
  import opened UserHeapLists
  import opened UserHeapBlocks
  import opened UserHeapInvariant
  import opened UserHeapSearch

  const LAST: nat := FIRST + 800      // the free block of 12 words
  const END: nat := LAST + 12         // the epilogue
  const CLASS: nat := 3

  // Blocks start every 8 words, free and in use by turns.
  ghost predicate Starts(b: nat) { FIRST <= b <= LAST && (b - FIRST) % 8 == 0 }

  ghost predicate StartsFree(b: nat) { FIRST <= b <= LAST && (b - FIRST) % 16 == 0 }

  ghost function BlockAt(b: nat): Block {
    if b == LAST then Block(12, false) else Block(8, !StartsFree(b))
  }

  ghost function Lay(): (lay: Layout)
    ensures forall b :: b in lay <==> Starts(b)
    ensures forall b :: b in lay ==> lay[b] == BlockAt(b)
  {
    map b: nat | b <= LAST && Starts(b) :: BlockAt(b)
  }

  // The static lists: all empty but list 3, from the first free block to the last.
  ghost function ListWord(a: nat): Word
    requires SEG_LIST <= a < HEAP
  {
    var i, m := (a - SEG_LIST) / 4, (a - SEG_LIST) % 4;
    if m == 1 then Ptr(if i == CLASS then FIRST + 1 else Tail(i))
    else if m == 2 then Ptr(if i == CLASS then LAST + 1 else Head(i))
    else Ptr(0)
  }

  // A word of the blocks of 8 words: header, links and footer of the free one, header of the other.
  ghost function SmallWord(a: nat): Word
    requires FIRST <= a < LAST
  {
    var m := (a - FIRST) % 16;
    if m == 0 || m == 7 then Word(false, true, 8)
    else if m == 1 then Ptr(if a == FIRST + 1 then Head(CLASS) else a - 16)
    else if m == 2 then Ptr(a + 15)
    else if m == 8 then Word(true, false, 8)
    else ZERO
  }

  ghost function LastWord(a: nat): Word
    requires LAST <= a < END
  {
    if a == LAST || a == END - 1 then Word(false, true, 12)
    else if a == LAST + 1 then Ptr(LAST - 15)
    else if a == LAST + 2 then Ptr(Tail(CLASS))
    else ZERO
  }

  ghost function WordAt(a: nat): Word {
    if SEG_LIST <= a < HEAP then ListWord(a)
    else if a == FIRST - 1 || a == END then FENCE
    else if FIRST <= a < LAST then SmallWord(a)
    else if LAST <= a < END then LastWord(a)
    else ZERO
  }

  ghost function Mem(): (mem: Memory)
    ensures |mem| == END + 1 && forall a :: 0 <= a <= END ==> mem[a] == WordAt(a)
  {
    seq(END + 1, a requires 0 <= a <= END => WordAt(a))
  }

  // Elements of list 3 are ranked by address, below the tail.
  ghost predicate Sentinel(n: nat) { SEG_LIST <= n < HEAP && n % 2 == 0 }

  ghost predicate Element(n: nat) { n >= 1 && StartsFree(n - 1) }

  ghost function CellAt(n: nat): Cell {
    if n >= HEAP then Cell(CLASS, n)
    else if n < SEG_LIST then Cell(0, 0)
    else Cell((n - SEG_LIST) / 4, if n % 4 == 0 then 0 else END)
  }

  ghost function Ch(): (ch: Chain)
    ensures forall n :: n in ch <==> Sentinel(n) || Element(n)
    ensures forall n :: n in ch ==> ch[n] == CellAt(n)
  {
    map n: nat | n <= END && (Sentinel(n) || Element(n)) :: CellAt(n)
  }

  // ---------------------------------------------------------------------------------------
  // The invariant holds there.

  lemma StartsAligned(b: nat)
    requires Starts(b)
    ensures Aligned(b)
  {
  }

  lemma TileHere(b: nat)
    requires Starts(b)
    ensures Tile(Lay(), END, b)
  {
    hide Aligned;
    StartsAligned(b);
    if b < LAST { assert Starts(b + 8); }
  }

  lemma InOrderHere(b: nat, c: nat)
    requires Starts(b) && Starts(c)
    ensures InOrder(Lay(), b, c)
  {
    assert b < c ==> b + 8 <= c && b != LAST;
  }

  lemma FollowsHere(c: nat)
    requires (Starts(c) || c == END) && c != FIRST
    ensures Follows(Lay(), c)
  {
    var lay := Lay();
    if c == END {
      assert Starts(LAST) && Next(lay, LAST) == c;
    } else {
      assert Starts(c - 8) && Next(lay, c - 8) == c;
    }
  }

  lemma GeometryHere()
    ensures Geometry(Lay(), END)
  {
    hide Starts, Tile, InOrder, Follows, BlockAt;
    var lay := Lay();
    FirstStarts();
    forall b | b in lay ensures Tile(lay, END, b) { TileHere(b); }
    forall b, c | b in lay && c in lay ensures InOrder(lay, b, c) { InOrderHere(b, c); }
    forall c | (c in lay || c == END) && c != FIRST ensures Follows(lay, c) { FollowsHere(c); }
  }

  lemma FirstStarts()
    ensures Starts(FIRST) && StartsFree(FIRST) && Starts(LAST) && StartsFree(LAST)
  {
  }

  // The words of the k-th free block of 8 words and of the block in use after it.
  lemma SmallWords(k: nat)
    requires k < 50
    ensures var b := FIRST + 16 * k;
      && WordAt(b) == WordAt(b + 7) == Word(false, true, 8) && WordAt(b + 8) == Word(true, false, 8)
      && WordAt(b + 1) == Ptr(if k == 0 then Head(CLASS) else b - 15) && WordAt(b + 2) == Ptr(b + 17)
      && WordAt(b + 16).pinuse && StartsFree(b) && !StartsFree(b + 8) && Starts(b) && Starts(b + 8)
  {
    var b := FIRST + 16 * k;
    assert (b - FIRST) % 16 == 0 && (b + 16 - FIRST) % 16 == 0;
  }

  lemma Numbered(b: nat) returns (k: nat)
    requires Starts(b) && b != LAST
    ensures k < 50 && (b == FIRST + 16 * k || b == FIRST + 16 * k + 8)
  {
    k := (b - FIRST) / 16;
  }

  lemma LastWords()
    ensures WordAt(LAST) == WordAt(END - 1) == Word(false, true, 12) && WordAt(END) == FENCE
    ensures WordAt(LAST + 1) == Ptr(LAST - 15) && WordAt(LAST + 2) == Ptr(Tail(CLASS))
  {
  }

  lemma TaggedHere(b: nat)
    requires Starts(b)
    ensures Tagged(Mem(), Lay(), b)
  {
    hide WordAt, StartsFree, Starts;
    LastWords();
    FirstStarts();
    if b != LAST {
      var k := Numbered(b);
      SmallWords(k);
    }
  }

  lemma FenceWords()
    ensures WordAt(FIRST - 1) == FENCE && WordAt(FIRST).pinuse && WordAt(END) == FENCE
  {
  }

  lemma TagsHere()
    ensures Tags(Mem(), Lay())
  {
    hide WordAt, Starts;
    FenceWords();
    forall b | b in Lay() ensures Tagged(Mem(), Lay(), b) { TaggedHere(b); }
  }

  ghost function E(k: nat): nat { FIRST + 16 * k + 1 }

  lemma ElementIs(k: nat)
    requires k <= 50
    ensures Element(E(k)) && E(k) in Ch() && Ch()[E(k)] == Cell(CLASS, E(k)) && E(k) % 2 == 0
  {
    assert (16 * k) % 16 == 0;
  }

  lemma ListWords(i: nat)
    requires i < NUM_LISTS
    ensures WordAt(Head(i) + 1) == Ptr(if i == CLASS then E(0) else Tail(i))
    ensures WordAt(Tail(i)) == Ptr(if i == CLASS then E(50) else Head(i))
  {
    assert (Head(i) + 1 - SEG_LIST) / 4 == i && (Tail(i) - SEG_LIST) / 4 == i;
  }

  lemma SentinelIs(i: nat)
    requires i < NUM_LISTS
    ensures Head(i) in Ch() && Tail(i) in Ch() && Ch()[Head(i)] == Cell(i, 0) && Ch()[Tail(i)] == Cell(i, END)
  {
    assert Sentinel(Head(i)) && Sentinel(Tail(i));
    assert (Head(i) - SEG_LIST) / 4 == i && (Tail(i) - SEG_LIST) / 4 == i;
  }

  lemma ElementGood(k: nat)
    requires k <= 50
    ensures Good(Mem(), Ch(), E(k))
  {
    hide WordAt, Element, Sentinel, CellAt;
    ElementIs(k);
    SentinelIs(CLASS);
    ListWords(CLASS);
    LastWords();
    if k > 0 {
      ElementIs(k - 1);
      SmallWords(k - 1);
    }
    if k < 50 {
      ElementIs(k + 1);
      SmallWords(k);
      if k + 1 < 50 { SmallWords(k + 1); }
    }
  }

  lemma SentinelGood(i: nat)
    requires i < NUM_LISTS
    ensures Good(Mem(), Ch(), Head(i)) && Good(Mem(), Ch(), Tail(i))
  {
    hide WordAt, Element, Sentinel, CellAt;
    SentinelIs(i);
    ListWords(i);
    ElementIs(0);
    ElementIs(50);
    SmallWords(0);
    LastWords();
  }

  // Every list element is numbered.
  lemma ChainIs(n: nat) returns (i: nat)
    requires n in Ch()
    ensures (i <= 50 && n == E(i)) || (i < NUM_LISTS && (n == Head(i) || n == Tail(i)))
  {
    if Element(n) {
      i := (n - 1 - FIRST) / 16;
    } else {
      i := (n - SEG_LIST) / 4;
    }
  }

  lemma ListsHere()
    ensures Lists(Mem(), Ch())
  {
    hide Good, Ch, Mem;
    MemSize();
    forall i | 0 <= i < NUM_LISTS
      ensures Head(i) in Ch() && Tail(i) in Ch() && Ch()[Head(i)].list == i && Ch()[Tail(i)].list == i
    {
      SentinelIs(i);
    }
    forall n | n in Ch() ensures Good(Mem(), Ch(), n) {
      var i := ChainIs(n);
      if i <= 50 && n == E(i) {
        ElementGood(i);
      } else {
        SentinelGood(i);
      }
    }
  }

  lemma MemSize()
    ensures |Mem()| == END + 1
  {
  }

  lemma ListedHere(b: nat)
    requires Starts(b) && !BlockAt(b).used
    ensures Listed(Lay(), Ch(), b)
  {
    assert Element(b + 1);
  }

  lemma BackedHere(n: nat)
    requires n in Ch()
    ensures Backed(Lay(), n) && n != 1
  {
    hide BlockAt, Starts;
    if n >= HEAP {
      assert StartsFree(n - 1);
      FreeStarts(n - 1);
    }
  }

  lemma FreeStarts(b: nat)
    requires StartsFree(b)
    ensures Starts(b) && !BlockAt(b).used
  {
    var k := (b - FIRST) / 16;
    assert b - FIRST == 8 * (2 * k);
  }

  lemma ApartHere(b: nat)
    ensures !Touching(Lay(), b)
  {
  }

  lemma InvHere()
    ensures Inv(Mem(), Lay(), Ch())
  {
    hide Starts, Element, Sentinel, CellAt, Geometry, Tags, Lists, BlockAt;
    var mem, lay, ch := Mem(), Lay(), Ch();
    GeometryHere();
    TagsHere();
    ListsHere();
    forall b | b in lay && !lay[b].used ensures Listed(lay, ch, b) { ListedHere(b); }
    forall n | n in ch ensures Backed(lay, n) && n != 1 { BackedHere(n); }
    forall b: nat ensures !Touching(lay, b) { ApartHere(b); }
  }

  // ---------------------------------------------------------------------------------------
  // The search stops before the block of 12 words.

  // List 3 from element k on.
  ghost function From(k: nat): (l: seq<nat>)
    requires k <= 51
    ensures |l| == 51 - k && forall m :: 0 <= m < |l| ==> l[m] == E(k + m)
  {
    seq<nat>(51 - k, m requires 0 <= m < 51 - k => E(k + m))
  }

  lemma {:induction false} WalkFrom(k: nat)
    requires k <= 50
    ensures Lists(Mem(), Ch()) && E(k) in Ch()
    ensures Walk(Mem(), Ch(), E(k)) == From(k) + [Tail(CLASS)]
    decreases 50 - k
  {
    hide Mem, Ch, Lists, Walk, E;
    ListsHere();
    ElementNext(k);
    SentinelIs(CLASS);
    WalkStep(Mem(), Ch(), E(k));
    if k < 50 {
      WalkFrom(k + 1);
      assert From(k) == [E(k)] + From(k + 1);
    } else {
      WalkStep(Mem(), Ch(), Tail(CLASS));
      assert From(50) == [E(50)];
    }
  }

  lemma ElementNext(k: nat)
    requires k <= 50
    ensures E(k) in Ch() && Ch()[E(k)].list == CLASS && E(k) != Tail(CLASS) && E(k) + 1 < |Mem()|
    ensures Mem()[E(k) + 1].size == if k < 50 then E(k + 1) else Tail(CLASS)
  {
    ElementIs(k);
    if k < 50 { SmallWords(k); } else { LastWords(); }
  }

  lemma ListHere()
    ensures Lists(Mem(), Ch()) && FreeList(Mem(), Ch(), CLASS) == From(0)
  {
    WalkFrom(0);
    SentinelIs(CLASS);
    ListWords(CLASS);
    SentinelGood(CLASS);
    var w := Walk(Mem(), Ch(), Head(CLASS));
    assert w == [Head(CLASS)] + (From(0) + [Tail(CLASS)]);
    assert w[1..52] == From(0);
  }

  // Lists 1 and 2 admit 12 words but are empty.
  lemma StartsAtThree(mem: Memory)
    requires HEAP <= |mem| && ListEmpty(mem, 1) && ListEmpty(mem, 2) && !ListEmpty(mem, CLASS)
    ensures GetNonEmptyList(mem, 12, 0) == CLASS
  {
    hide ListEmpty;
  }

  lemma StartHere()
    ensures HEAP <= |Mem()| && GetNonEmptyList(Mem(), 12, 0) == CLASS
  {
    hide GetNonEmptyList, WordAt;
    ListWords(1);
    ListWords(2);
    ListWords(CLASS);
    StartsAtThree(Mem());
  }

  lemma NothingAbove(e: nat)
    ensures !FreeFrom(Mem(), Lay(), CLASS + 1, e)
  {
  }

  lemma SmallSize(k: nat)
    requires k < 50
    ensures !Fits(Mem(), E(k), 12)
  {
    SmallWords(k);
  }

  /** The invariant holds, block LAST is free and has the 12 words asked for, and the search for 12
      words still finds nothing: the free block is the fifty-first it would look at. */
  lemma FindFitMisses()
    ensures Inv(Mem(), Lay(), Ch())
    ensures LAST in Lay() && !Lay()[LAST].used && Lay()[LAST].size == 12
    ensures Lists(Mem(), Ch()) && FirstFit(Mem(), Candidates(Mem(), Ch(), 12), 12) == 0
  {
    hide Inv, Lists, FreeFrom, FreeList, Examined, GetNonEmptyList, Fits;
    var mem, lay, ch := Mem(), Lay(), Ch();
    InvHere();
    FirstStarts();
    ListHere();
    StartHere();
    ExaminedStep(mem, ch, CLASS, 0);
    ExaminedFree(mem, lay, ch, CLASS + 1, 50);
    forall e | e in Candidates(mem, ch, 12) ensures !Fits(mem, e, 12) {
      if e in From(0)[..50] {
        var k :| 0 <= k < 50 && From(0)[k] == e;
        SmallSize(k);
      } else {
        NothingAbove(e);
      }
    }
    NoFit(mem, Candidates(mem, ch, 12), 12);
  }
}
