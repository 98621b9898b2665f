/** The search of src/lib/user/malloc.c for a free block: which list it starts at, which blocks it
    looks at, and what it can miss. */
module UserHeapSearch {
  import opened Sequences
  import opened UserHeapLists
  import opened UserHeapBlocks
  import opened UserHeapInvariant
  import Numbers

  // Upper size limits that get_non_empty_list tests for lists 0 to 14.
  const LIMITS: seq<nat> := [8, 24, 48, 80, 160, 320, 640, 960, 512, 1024, 2048, 4096, 8192, 16384, 32768]

  predicate ListEmpty(mem: Memory, i: nat)
    requires i < NUM_LISTS && HEAP <= |mem|
  {
    mem[Head(i) + 1] == Ptr(Tail(i))
  }

  /** get_non_empty_list: the first list from i on whose limit admits `size` and that is not
      empty, else the last list. */
  function GetNonEmptyList(mem: Memory, size: nat, i: nat): (r: nat)
    requires i < NUM_LISTS && HEAP <= |mem|
    ensures i <= r < NUM_LISTS
    ensures r < 15 ==> size <= LIMITS[r] && !ListEmpty(mem, r)
    ensures forall j :: i <= j < r && j < 15 ==> size > LIMITS[j] || ListEmpty(mem, j)
    decreases NUM_LISTS - i
  {
    if i == 15 then 15
    else if size <= LIMITS[i] && !ListEmpty(mem, i) then i
    else GetNonEmptyList(mem, size, i + 1)
  }

  // ---------------------------------------------------------------------------------------
  // What the lists hold.

  /** Walking list i in memory meets the two sentinels and exactly the free blocks whose size
      belongs to list i, each once. */
  lemma FreeListsAreExact(mem: Memory, lay: Layout, ch: Chain, i: nat)
    requires Inv(mem, lay, ch) && i < NUM_LISTS
    ensures Head(i) in ch
    ensures var w := Walk(mem, ch, Head(i));
      && (forall b :: HEAP <= b ==> (b + 1 in w <==> b in lay && !lay[b].used && GetList(lay[b].size) == i))
      && Distinct(w)
  {
    ghost var w := Walk(mem, ch, Head(i));
    forall b | HEAP <= b
      ensures b + 1 in w <==> b in lay && !lay[b].used && GetList(lay[b].size) == i
    {
      WalkMeets(mem, ch, i, b + 1);
      OnList(mem, lay, ch, i, b);
    }
    WalkOnce(mem, ch, i);
  }

  lemma WalkMeets(mem: Memory, ch: Chain, i: nat, n: nat)
    requires Lists(mem, ch) && i < NUM_LISTS
    ensures n in Walk(mem, ch, Head(i)) <==> n in ch && ch[n].list == i
  {
    WalkMeetsAll(mem, ch, i);
  }

  lemma WalkOnce(mem: Memory, ch: Chain, i: nat)
    requires Lists(mem, ch) && i < NUM_LISTS
    ensures Distinct(Walk(mem, ch, Head(i)))
  {
    WalkMeetsAll(mem, ch, i);
  }

  lemma OnList(mem: Memory, lay: Layout, ch: Chain, i: nat, b: nat)
    requires Inv(mem, lay, ch) && HEAP <= b
    ensures b + 1 in ch && ch[b + 1].list == i <==> b in lay && !lay[b].used && GetList(lay[b].size) == i
  {
    if b + 1 in ch { assert Backed(lay, b + 1) && Listed(lay, ch, b); }
    if b in lay && !lay[b].used { assert Listed(lay, ch, b); }
  }

  lemma EmptyListHasNone(mem: Memory, lay: Layout, ch: Chain, j: nat, b: nat)
    requires Inv(mem, lay, ch) && j < NUM_LISTS && ListEmpty(mem, j) && b in lay && !lay[b].used
    ensures GetList(lay[b].size) != j
  {
    assert Tile(lay, |mem| - 1, b);
    assert Good(mem, ch, Head(j)) && Good(mem, ch, Tail(j));
    OnList(mem, lay, ch, j, b);
    WalkMeets(mem, ch, j, b + 1);
    assert Walk(mem, ch, Head(j)) == [Head(j)] + Walk(mem, ch, Tail(j));
  }

  // No block of a list is larger than the list's limit.
  lemma ClassLimit(size: nat)
    ensures GetList(size) < 15 ==> size <= LIMITS[GetList(size)]
  {
  }

  lemma ClassStarts(i: nat)
    requires i <= 15
    ensures Numbers.Pow2(i) == [1, 2, 4, 8, 16, 32, 64, 128, 256, 512, 1024, 2048, 4096, 8192, 16384, 32768][i]
  {
    if i > 0 { ClassStarts(i - 1); }
  }

  /** List i holds the blocks from 2^i words up to twice that, and the last list all larger ones; only
      blocks of exactly 128 words are one list below. */
  lemma ClassIs(size: nat, i: nat)
    requires 0 < size && i < NUM_LISTS
    ensures GetList(size) == i <==>
      if size == 128 then i == 6 else Numbers.Pow2(i) <= size && (i < 15 ==> size < 2 * Numbers.Pow2(i))
  {
    hide Numbers.Pow2;
    ClassStarts(i);
  }

  // Lists that get_non_empty_list skips hold no block that fits.
  lemma NotBelow(mem: Memory, lay: Layout, ch: Chain, asize: nat, index: nat, b: nat)
    requires Inv(mem, lay, ch) && index == GetNonEmptyList(mem, asize, 0)
    requires b in lay && !lay[b].used && GetList(lay[b].size) < index
    ensures lay[b].size < asize
  {
    var j := GetList(lay[b].size);
    ClassLimit(lay[b].size);
    if ListEmpty(mem, j) {
      EmptyListHasNone(mem, lay, ch, j, b);
    }
  }

  // ---------------------------------------------------------------------------------------
  // What find_fit looks at.

  // The search gives up on a list once this many blocks were too small.
  const PATIENCE: nat := 50

  /** The elements of list i in list order, without the sentinels. */
  ghost function FreeList(mem: Memory, ch: Chain, i: nat): (l: seq<nat>)
    requires Lists(mem, ch) && i < NUM_LISTS
    ensures |Walk(mem, ch, Head(i))| == |l| + 2 && l == Walk(mem, ch, Head(i))[1..|l| + 1]
  {
    assert Good(mem, ch, Head(i));
    var w := Walk(mem, ch, Head(i));
    w[1..|w| - 1]
  }

  /** How many blocks of a list of `len` find_fit looks at after c others, when none fits. */
  function Quota(len: nat, c: nat): nat {
    var left := if c < PATIENCE then PATIENCE - c else 1;
    if len < left then len else left
  }

  /** The elements that find_fit looks at from list i on when none fits and c came before: of each
      list a first part, down to a single element once fifty blocks were too small. */
  ghost function Examined(mem: Memory, ch: Chain, i: nat, c: nat): seq<nat>
    requires Lists(mem, ch) && i <= NUM_LISTS
    decreases NUM_LISTS - i
  {
    if i == NUM_LISTS then [] else
      var l := FreeList(mem, ch, i);
      var k := Quota(|l|, c);
      l[..k] + Examined(mem, ch, i + 1, c + k)
  }

  lemma ExaminedStep(mem: Memory, ch: Chain, i: nat, c: nat)
    requires Lists(mem, ch) && i <= NUM_LISTS
    ensures i == NUM_LISTS ==> Examined(mem, ch, i, c) == []
    ensures i < NUM_LISTS ==> var l := FreeList(mem, ch, i);
      && Quota(|l|, c) <= |l|
      && Examined(mem, ch, i, c) == l[..Quota(|l|, c)] + Examined(mem, ch, i + 1, c + Quota(|l|, c))
  {
  }

  /** Everything that find_fit looks at for a request of asize words when none of it fits. */
  ghost function Candidates(mem: Memory, ch: Chain, asize: nat): seq<nat>
    requires Lists(mem, ch)
  {
    Examined(mem, ch, GetNonEmptyList(mem, asize, 0), 0)
  }

  predicate Fits(mem: Memory, e: nat, asize: nat) {
    1 < e < |mem| && asize <= mem[e - 1].size
  }

  /** The block of the first element that fits, 0 for none. */
  ghost function FirstFit(mem: Memory, s: seq<nat>, asize: nat): nat {
    if s == [] then 0 else if Fits(mem, s[0], asize) then s[0] - 1 else FirstFit(mem, s[1..], asize)
  }

  lemma {:induction false} FirstFitAt(mem: Memory, s: seq<nat>, asize: nat, k: nat)
    requires k < |s| && Fits(mem, s[k], asize) && forall j :: 0 <= j < k ==> !Fits(mem, s[j], asize)
    ensures FirstFit(mem, s, asize) == s[k] - 1
  {
    if k > 0 { FirstFitAt(mem, s[1..], asize, k - 1); }
  }

  lemma {:induction false} NoFit(mem: Memory, s: seq<nat>, asize: nat)
    ensures FirstFit(mem, s, asize) == 0 <==> forall e :: e in s ==> !Fits(mem, e, asize)
  {
    if s != [] { NoFit(mem, s[1..], asize); }
  }

  lemma {:induction false} FirstFitConcat(mem: Memory, s: seq<nat>, t: seq<nat>, asize: nat)
    ensures FirstFit(mem, s + t, asize)
         == if FirstFit(mem, s, asize) != 0 then FirstFit(mem, s, asize) else FirstFit(mem, t, asize)
  {
    if s == [] {
      assert s + t == t;
    } else {
      assert (s + t)[1..] == s[1..] + t;
      FirstFitConcat(mem, s[1..], t, asize);
    }
  }

  lemma SearchStep(mem: Memory, ch: Chain, i: nat, c: nat, asize: nat)
    requires Lists(mem, ch) && i < NUM_LISTS
    ensures var l := FreeList(mem, ch, i); var k := Quota(|l|, c);
      FirstFit(mem, Examined(mem, ch, i, c), asize)
      == if FirstFit(mem, l[..k], asize) != 0 then FirstFit(mem, l[..k], asize)
         else FirstFit(mem, Examined(mem, ch, i + 1, c + k), asize)
  {
    hide Lists, FreeList, Examined, FirstFit;
    ExaminedStep(mem, ch, i, c);
    var l := FreeList(mem, ch, i);
    var k := Quota(|l|, c);
    FirstFitConcat(mem, l[..k], Examined(mem, ch, i + 1, c + k), asize);
  }

  // The walk of list i has come to e, after j elements.
  ghost predicate Scanning(mem: Memory, ch: Chain, i: nat, e: nat, l: seq<nat>, j: nat)
    requires Lists(mem, ch) && i < NUM_LISTS
  {
    && l == FreeList(mem, ch, i) && j <= |l| && e in ch && ch[e].list == i
    && Walk(mem, ch, e) == Walk(mem, ch, Head(i))[j + 1..]
  }

  lemma ScanFirst(mem: Memory, ch: Chain, i: nat)
    requires Lists(mem, ch) && i < NUM_LISTS
    ensures Scanning(mem, ch, i, mem[Head(i) + 1].size, FreeList(mem, ch, i), 0)
  {
    assert Good(mem, ch, Head(i));
    var s := mem[Head(i) + 1].size;
    assert Walk(mem, ch, Head(i)) == [Head(i)] + Walk(mem, ch, s);
  }

  lemma ScanStep(mem: Memory, lay: Layout, ch: Chain, i: nat, e: nat, l: seq<nat>, j: nat)
    requires Inv(mem, lay, ch) && i < NUM_LISTS && Scanning(mem, ch, i, e, l, j) && e != Tail(i)
    ensures j < |l| && l[j] == e && HEAP < e && e + 1 < |mem|
    ensures e - 1 in lay && !lay[e - 1].used && mem[e - 1].size == lay[e - 1].size
    ensures Scanning(mem, ch, i, mem[e + 1].size, l, j + 1)
  {
    hide Inv, Lists, FreeList, Walk, Distinct;
    HasLists(mem, lay, ch);
    WalkStep(mem, ch, e);
    var w, s := Walk(mem, ch, Head(i)), mem[e + 1].size;
    assert w[j + 1..][0] == w[j + 1] && w[j + 1..][1..] == w[j + 2..];
    FreeListIs(mem, lay, ch, i);
    assert l[j] in l;
  }

  lemma ScanLast(mem: Memory, ch: Chain, i: nat, l: seq<nat>, j: nat)
    requires Lists(mem, ch) && i < NUM_LISTS && Scanning(mem, ch, i, Tail(i), l, j)
    ensures j == |l|
  {
  }

  // ---------------------------------------------------------------------------------------
  // What it can miss.

  ghost function TooSmall(lay: Layout, asize: nat): set<nat> {
    set b | b in lay && !lay[b].used && lay[b].size < asize
  }

  lemma WalkStep(mem: Memory, ch: Chain, n: nat)
    requires Lists(mem, ch) && n in ch
    ensures n == Tail(ch[n].list) ==> Walk(mem, ch, n) == [n]
    ensures n != Tail(ch[n].list) ==>
      && n + 1 < |mem| && mem[n + 1].size in ch && ch[mem[n + 1].size].list == ch[n].list
      && Walk(mem, ch, n) == [n] + Walk(mem, ch, mem[n + 1].size)
  {
    assert Good(mem, ch, n);
  }

  lemma {:induction false} WalkEnds(mem: Memory, ch: Chain, n: nat)
    requires Lists(mem, ch) && n in ch
    ensures var w := Walk(mem, ch, n); w[|w| - 1] == Tail(ch[n].list)
    decreases Above(ch, n)
  {
    assert Good(mem, ch, n);
    if n != Tail(ch[n].list) {
      var s := mem[n + 1].size;
      assert Above(ch, s) < Above(ch, n) by { assert s in Above(ch, n) && s !in Above(ch, s); }
      WalkEnds(mem, ch, s);
    }
  }

  lemma MiddleOf(w: seq<nat>, l: seq<nat>)
    requires Distinct(w) && |w| == |l| + 2 && l == w[1..|l| + 1]
    ensures Distinct(l)
    ensures forall e :: e in l <==> e in w && e != w[0] && e != w[|w| - 1]
  {
    forall e | e in w && e != w[0] && e != w[|w| - 1] ensures e in l {
      var k :| 0 <= k < |w| && w[k] == e;
      assert l[k - 1] == e;
    }
    forall e | e in l ensures e in w && e != w[0] && e != w[|w| - 1] {
      var k :| 0 <= k < |l| && l[k] == e;
      assert w[k + 1] == e;
    }
  }

  lemma FreeListChain(mem: Memory, ch: Chain, i: nat)
    requires Lists(mem, ch) && i < NUM_LISTS
    ensures Distinct(FreeList(mem, ch, i))
    ensures forall e :: e in FreeList(mem, ch, i) <==> e in ch && ch[e].list == i && e != Head(i) && e != Tail(i)
  {
    WalkMeetsAll(mem, ch, i);
    WalkEnds(mem, ch, Head(i));
    MiddleOf(Walk(mem, ch, Head(i)), FreeList(mem, ch, i));
  }

  // Element e belongs to a free block of class i.
  ghost predicate Free(mem: Memory, lay: Layout, i: nat, e: nat) {
    && HEAP < e < |mem| && e - 1 in lay && !lay[e - 1].used && GetList(lay[e - 1].size) == i
    && mem[e - 1].size == lay[e - 1].size
  }

  /** The elements of list i are those of the free blocks whose size belongs to it, each once. */
  lemma FreeListIs(mem: Memory, lay: Layout, ch: Chain, i: nat)
    requires Inv(mem, lay, ch) && i < NUM_LISTS
    ensures forall e :: e in FreeList(mem, ch, i) ==> Free(mem, lay, i, e)
    ensures forall b :: b in lay && !lay[b].used && GetList(lay[b].size) == i ==> b + 1 in FreeList(mem, ch, i)
    ensures Distinct(FreeList(mem, ch, i))
  {
    hide FreeList, Distinct;
    FreeListChain(mem, ch, i);
    forall e | e in FreeList(mem, ch, i) ensures Free(mem, lay, i, e) { FreeElement(mem, lay, ch, i, e); }
    forall b | b in lay && !lay[b].used && GetList(lay[b].size) == i ensures b + 1 in FreeList(mem, ch, i) {
      assert Tile(lay, |mem| - 1, b);
      OnList(mem, lay, ch, i, b);
    }
  }

  lemma FreeElement(mem: Memory, lay: Layout, ch: Chain, i: nat, e: nat)
    requires Inv(mem, lay, ch) && e in ch && ch[e].list == i && e != Head(i) && e != Tail(i)
    ensures Free(mem, lay, i, e)
  {
    assert Good(mem, ch, e) && Backed(lay, e);
    assert Tile(lay, |mem| - 1, e - 1) && Tagged(mem, lay, e - 1);
    OnList(mem, lay, ch, i, e - 1);
  }

  // Element e belongs to a free block of class i or above.
  ghost predicate FreeFrom(mem: Memory, lay: Layout, i: nat, e: nat) {
    e >= 1 && e - 1 in lay && GetList(lay[e - 1].size) >= i && Free(mem, lay, GetList(lay[e - 1].size), e)
  }

  lemma FreeFromHere(mem: Memory, lay: Layout, i: nat, e: nat)
    requires Free(mem, lay, i, e)
    ensures FreeFrom(mem, lay, i, e) && !FreeFrom(mem, lay, i + 1, e)
  {
  }

  lemma FreeFromAbove(mem: Memory, lay: Layout, i: nat, e: nat)
    requires FreeFrom(mem, lay, i + 1, e)
    ensures FreeFrom(mem, lay, i, e)
  {
  }

  ghost predicate AllFreeFrom(mem: Memory, lay: Layout, i: nat, s: seq<nat>) {
    forall e :: e in s ==> FreeFrom(mem, lay, i, e)
  }

  // A part of list i and elements of later lists.
  lemma OneMoreList(mem: Memory, lay: Layout, i: nat, l: seq<nat>, k: nat, rest: seq<nat>)
    requires k <= |l| && Distinct(l) && forall e :: e in l ==> Free(mem, lay, i, e)
    requires Distinct(rest) && AllFreeFrom(mem, lay, i + 1, rest)
    ensures Distinct(l[..k] + rest) && AllFreeFrom(mem, lay, i, l[..k] + rest)
  {
    hide Free, FreeFrom;
    forall e | e in l[..k] ensures e in l && FreeFrom(mem, lay, i, e) && e !in rest {
      assert e in l;
      FreeFromHere(mem, lay, i, e);
    }
    forall e | e in rest ensures FreeFrom(mem, lay, i, e) { FreeFromAbove(mem, lay, i, e); }
    DistinctParts(l[..k], rest);
  }

  // What find_fit looks at are elements of free blocks, each once.
  lemma {:induction false} ExaminedFree(mem: Memory, lay: Layout, ch: Chain, i: nat, c: nat)
    requires Inv(mem, lay, ch) && i <= NUM_LISTS
    ensures AllFreeFrom(mem, lay, i, Examined(mem, ch, i, c)) && Distinct(Examined(mem, ch, i, c))
    decreases NUM_LISTS - i
  {
    hide Inv, Lists, FreeFrom, FreeList, Quota, Examined;
    HasLists(mem, lay, ch);
    ExaminedStep(mem, ch, i, c);
    if i < NUM_LISTS {
      var l := FreeList(mem, ch, i);
      var k := Quota(|l|, c);
      FreeListIs(mem, lay, ch, i);
      ExaminedFree(mem, lay, ch, i + 1, c + k);
      OneMoreList(mem, lay, i, l, k, Examined(mem, ch, i + 1, c + k));
    }
  }

  lemma HasLists(mem: Memory, lay: Layout, ch: Chain)
    requires Inv(mem, lay, ch)
    ensures Lists(mem, ch)
  {
  }

  lemma DistinctParts(s: seq<nat>, t: seq<nat>)
    requires Distinct(s) && Distinct(t) && forall e :: e in s ==> e !in t
    ensures Distinct(s + t)
  {
    var w := s + t;
    forall k, l | 0 <= k < l < |w| ensures w[k] != w[l] {
      if k < |s| <= l { assert w[k] in s && w[l] in t; }
    }
  }

  // As long as fewer than fifty were looked at, nothing was left out.
  lemma {:induction false} ExaminedAll(mem: Memory, ch: Chain, i: nat, c: nat, j: nat, e: nat)
    requires Lists(mem, ch) && i <= j < NUM_LISTS && c + |Examined(mem, ch, i, c)| < PATIENCE
    requires e in FreeList(mem, ch, j)
    ensures e in Examined(mem, ch, i, c)
    decreases NUM_LISTS - i
  {
    hide Lists, FreeList, Examined;
    ExaminedStep(mem, ch, i, c);
    var l := FreeList(mem, ch, i);
    var k := Quota(|l|, c);
    assert l[..k] == l;
    if i < j { ExaminedAll(mem, ch, i + 1, c + k, j, e); }
  }

  lemma {:induction false} ManySmall(s: seq<nat>, set0: set<nat>)
    requires Distinct(s) && forall e :: e in s ==> e >= 1 && e - 1 in set0
    ensures |s| <= |set0|
  {
    if s != [] {
      var e := s[0];
      assert e in s;
      forall d | d in s[1..] ensures d >= 1 && d - 1 in set0 - {e - 1} { assert d in s && d != e; }
      ManySmall(s[1..], set0 - {e - 1});
    }
  }

  /** If nothing that find_fit looks at fits, then nothing fits at all, or at least fifty free
      blocks are too small. */
  lemma MissAfterFifty(mem: Memory, lay: Layout, ch: Chain, asize: nat)
    requires Inv(mem, lay, ch) && forall e :: e in Candidates(mem, ch, asize) ==> !Fits(mem, e, asize)
    ensures (forall b :: b in lay && !lay[b].used ==> lay[b].size < asize) || |TooSmall(lay, asize)| >= PATIENCE
  {
    hide Inv, Distinct, Examined, FreeList, GetList, GetNonEmptyList;
    HasLists(mem, lay, ch);
    var i, s := GetNonEmptyList(mem, asize, 0), Candidates(mem, ch, asize);
    ExaminedFree(mem, lay, ch, i, 0);
    if |s| >= PATIENCE {
      ManySmall(s, TooSmall(lay, asize));
    } else {
      forall b | b in lay && !lay[b].used ensures lay[b].size < asize {
        if GetList(lay[b].size) < i {
          NotBelow(mem, lay, ch, asize, i, b);
        } else {
          FreeListIs(mem, lay, ch, GetList(lay[b].size));
          ExaminedAll(mem, ch, i, 0, GetList(lay[b].size), b + 1);
          assert FreeFrom(mem, lay, i, b + 1);
        }
      }
    }
  }

  lemma SearchStart(mem: Memory, lay: Layout, ch: Chain, asize: nat)
    requires Inv(mem, lay, ch)
    ensures HEAP <= |mem| && Lists(mem, ch)
    ensures Candidates(mem, ch, asize) == Examined(mem, ch, GetNonEmptyList(mem, asize, 0), 0)
  {
  }

  lemma SearchEnd(mem: Memory, lay: Layout, ch: Chain, asize: nat, c: nat)
    requires Inv(mem, lay, ch)
    requires FirstFit(mem, Candidates(mem, ch, asize), asize) == FirstFit(mem, Examined(mem, ch, NUM_LISTS, c), asize)
    ensures FirstFit(mem, Candidates(mem, ch, asize), asize) == 0
    ensures forall e :: e in Candidates(mem, ch, asize) ==> !Fits(mem, e, asize)
    ensures (forall b :: b in lay && !lay[b].used ==> lay[b].size < asize) || |TooSmall(lay, asize)| >= PATIENCE
  {
    NoFit(mem, Candidates(mem, ch, asize), asize);
    MissAfterFifty(mem, lay, ch, asize);
  }
}
