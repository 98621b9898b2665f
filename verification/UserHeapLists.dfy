/** The memory of a user process as the allocator of src/lib/user/malloc.c sees it, and the
    sixteen segregated free lists that are threaded through the free blocks of that memory.

    Memory is untyped.  A 32-bit word is the triple of bit-fields of `struct boundary_tag`
    (inuse, pinuse, 30 bits of size); user data, boundary tags and list links are all words,
    and a word-aligned pointer is a word whose two low bits are clear.  Addresses are word
    indices: byte address 4 * n is index n. */
module UserHeapLists {
  import opened Sequences

  datatype Word = Word(inuse: bool, pinuse: bool, size: nat)

  const ZERO := Word(false, false, 0)

  function Ptr(addr: nat): Word { Word(false, false, addr) }

  type Memory = seq<Word>

  const NUM_LISTS: nat := 16

  // `seg_list` is a static array of lists; each list is {head.prev, head.next, tail.prev, tail.next}.
  const SEG_LIST: nat := 4
  // First word of the heap, 16-byte aligned; everything below is static data.
  const HEAP: nat := 68

  function Head(i: nat): nat { SEG_LIST + 4 * i }

  function Tail(i: nat): nat { SEG_LIST + 4 * i + 2 }

  // A list element at address e keeps `prev` in word e and `next` in word e + 1.

  predicate Elem(mem: Memory, e: nat) {
    e + 1 < |mem|
  }

  /** list_init for list i. */
  function ListInit(mem: Memory, i: nat): (r: Memory)
    requires i < NUM_LISTS && HEAP <= |mem|
    ensures |r| == |mem|
  {
    mem[Head(i) := Ptr(0)][Head(i) + 1 := Ptr(Tail(i))][Tail(i) := Ptr(Head(i))][Tail(i) + 1 := Ptr(0)]
  }

  /** list_insert (before, elem). */
  function Insert(mem: Memory, before: nat, e: nat): (r: Memory)
    requires Elem(mem, before) && Elem(mem, e) && Elem(mem, mem[before].size)
    ensures |r| == |mem|
  {
    var p := mem[before];
    mem[e := p][e + 1 := Ptr(before)][p.size + 1 := Ptr(e)][before := Ptr(e)]
  }

  /** list_push_back (&seg_list[i], elem). */
  function PushBack(mem: Memory, i: nat, e: nat): (r: Memory)
    requires i < NUM_LISTS && HEAP <= |mem| && Elem(mem, e) && Elem(mem, mem[Tail(i)].size)
    ensures |r| == |mem|
  {
    Insert(mem, Tail(i), e)
  }

  /** list_remove (elem). */
  function Remove(mem: Memory, e: nat): (r: Memory)
    requires Elem(mem, e) && Elem(mem, mem[e].size) && Elem(mem, mem[e + 1].size)
    ensures |r| == |mem|
  {
    mem[mem[e].size + 1 := mem[e + 1]][mem[e + 1].size := mem[e]]
  }

  // ---------------------------------------------------------------------------------------
  // The shape of the lists.  A chain names every list element, sentinels included, and says of
  // each one which list it is on and a rank that grows along `next`.

  datatype Cell = Cell(list: nat, rank: nat)

  type Chain = map<nat, Cell>

  // Elements sit at even addresses, so that two elements never share a word.
  ghost predicate Placed(mem: Memory, ch: Chain, n: nat)
    requires n in ch
  {
    && n % 2 == 0 && Elem(mem, n) && ch[n].list < NUM_LISTS
    && (n < HEAP ==> n == Head(ch[n].list) || n == Tail(ch[n].list))
  }

  // `next` leads to an element of the same list whose `prev` leads back.
  ghost predicate Forward(mem: Memory, ch: Chain, n: nat)
    requires n in ch && Elem(mem, n)
  {
    n != Tail(ch[n].list) ==>
      var s := mem[n + 1].size;
      && s in ch && mem[n + 1] == Ptr(s) && s < |mem| && mem[s] == Ptr(n)
      && ch[s].list == ch[n].list && ch[n].rank < ch[s].rank && s != Head(ch[n].list)
  }

  ghost predicate Backward(mem: Memory, ch: Chain, n: nat)
    requires n in ch && Elem(mem, n)
  {
    n != Head(ch[n].list) ==>
      var p := mem[n].size;
      && p in ch && mem[n] == Ptr(p) && Elem(mem, p) && mem[p + 1] == Ptr(n)
      && ch[p].list == ch[n].list && p != Tail(ch[n].list)
  }

  ghost predicate Good(mem: Memory, ch: Chain, n: nat) {
    n in ch && Placed(mem, ch, n) && Forward(mem, ch, n) && Backward(mem, ch, n)
  }

  ghost predicate Lists(mem: Memory, ch: Chain) {
    && HEAP <= |mem|
    && (forall i :: 0 <= i < NUM_LISTS ==>
          Head(i) in ch && Tail(i) in ch && ch[Head(i)].list == i && ch[Tail(i)].list == i)
    && (forall n {:trigger Good(mem, ch, n)} :: n in ch ==> Good(mem, ch, n))
  }

  ghost function Pushed(ch: Chain, i: nat, e: nat): Chain
    requires Tail(i) in ch
  {
    var r := ch[Tail(i)].rank;
    ch[e := Cell(i, r)][Tail(i) := Cell(i, r + 1)]
  }

  // Memory that agrees on every link word holds the same lists.
  lemma ListsFrame(mem: Memory, mem': Memory, ch: Chain)
    requires Lists(mem, ch)
    requires |mem| <= |mem'|
    requires forall n :: n in ch ==> n + 1 < |mem| && mem'[n] == mem[n] && mem'[n + 1] == mem[n + 1]
    ensures Lists(mem', ch)
  {
    forall n | n in ch
      ensures Good(mem', ch, n)
    {
      assert Good(mem, ch, n);
    }
  }

  // What list_push_back writes, when `last` is the last element.
  lemma PushBackWrites(mem: Memory, i: nat, e: nat, last: nat)
    requires i < NUM_LISTS && HEAP <= |mem| && Elem(mem, e) && Elem(mem, last) && mem[Tail(i)] == Ptr(last)
    requires e % 2 == 0 && last % 2 == 0 && e != last && e != Tail(i) && last != Tail(i)
    ensures var r := PushBack(mem, i, e);
      && r[e] == Ptr(last) && r[e + 1] == Ptr(Tail(i)) && r[last + 1] == Ptr(e) && r[Tail(i)] == Ptr(e)
      && (forall a :: 0 <= a < |mem| && a != e && a != e + 1 && a != last + 1 && a != Tail(i) ==> r[a] == mem[a])
  {
  }

  // mem' is mem after list_push_back wrote element e between `last` and the tail of list i.
  ghost predicate AfterPush(mem: Memory, mem': Memory, ch: Chain, i: nat, e: nat, last: nat) {
    && Lists(mem, ch) && i < NUM_LISTS && e !in ch && HEAP <= e && Elem(mem, e) && e % 2 == 0
    && mem[Tail(i)] == Ptr(last) && Good(mem, ch, last) && last != Tail(i) && ch[last].list == i
    && ch[last].rank < ch[Tail(i)].rank && mem[last + 1] == Ptr(Tail(i))
    && |mem'| == |mem|
    && mem'[e] == Ptr(last) && mem'[e + 1] == Ptr(Tail(i)) && mem'[last + 1] == Ptr(e) && mem'[Tail(i)] == Ptr(e)
    && (forall a :: 0 <= a < |mem| && a != e && a != e + 1 && a != last + 1 && a != Tail(i) ==> mem'[a] == mem[a])
  }

  // The new element, the one before it and the tail.
  lemma PushBackAround(mem: Memory, mem': Memory, ch: Chain, i: nat, e: nat, last: nat)
    requires AfterPush(mem, mem', ch, i, e, last)
    ensures var ch' := Pushed(ch, i, e); Good(mem', ch', e) && Good(mem', ch', last) && Good(mem', ch', Tail(i))
  {
    assert Good(mem, ch, Tail(i));
    if last != Head(i) { assert Good(mem, ch, mem[last].size); }
  }

  lemma Neighbours(mem: Memory, ch: Chain, n: nat)
    requires Lists(mem, ch) && n in ch
    ensures Good(mem, ch, n)
    ensures n != Tail(ch[n].list) ==> Good(mem, ch, mem[n + 1].size)
    ensures n != Head(ch[n].list) ==> Good(mem, ch, mem[n].size)
  {
    assert Good(mem, ch, n);
    if n != Tail(ch[n].list) { assert Good(mem, ch, mem[n + 1].size); }
    if n != Head(ch[n].list) { assert Good(mem, ch, mem[n].size); }
  }

  // A list element whose neighbours and whose own links are not touched stays good.
  lemma StaysGood(mem: Memory, mem': Memory, ch: Chain, ch': Chain, n: nat)
    requires Good(mem, ch, n) && |mem'| == |mem| && mem'[n] == mem[n] && mem'[n + 1] == mem[n + 1]
    requires n in ch' && ch'[n].list == ch[n].list && ch'[n].rank == ch[n].rank
    requires n != Tail(ch[n].list) ==> var s := mem[n + 1].size;
      mem'[s] == mem[s] && s in ch' && ch'[s].list == ch[s].list && ch'[s].rank >= ch[s].rank
    requires n != Head(ch[n].list) ==> var p := mem[n].size;
      mem'[p + 1] == mem[p + 1] && p in ch' && ch'[p].list == ch[p].list
    ensures Good(mem', ch', n)
  {
  }

  // Any other element keeps both links.
  lemma PushBackOther(mem: Memory, mem': Memory, ch: Chain, i: nat, e: nat, last: nat, n: nat)
    requires AfterPush(mem, mem', ch, i, e, last) && n in ch && n != last && n != Tail(i)
    ensures Good(mem', Pushed(ch, i, e), n)
  {
    hide Lists;
    Neighbours(mem, ch, n);
    StaysGood(mem, mem', ch, Pushed(ch, i, e), n);
  }

  lemma PushBackKeeps(mem: Memory, mem': Memory, ch: Chain, i: nat, e: nat, last: nat)
    requires AfterPush(mem, mem', ch, i, e, last)
    ensures Lists(mem', Pushed(ch, i, e))
  {
    PushBackAround(mem, mem', ch, i, e, last);
    forall n | n in Pushed(ch, i, e)
      ensures Good(mem', Pushed(ch, i, e), n)
    {
      if n != e && n != last && n != Tail(i) {
        PushBackOther(mem, mem', ch, i, e, last, n);
      }
    }
  }

  lemma PushBackLists(mem: Memory, ch: Chain, i: nat, e: nat)
    requires Lists(mem, ch) && i < NUM_LISTS && HEAP <= e && e % 2 == 0 && Elem(mem, e) && e !in ch
    ensures Elem(mem, mem[Tail(i)].size)
    ensures Lists(PushBack(mem, i, e), Pushed(ch, i, e))
  {
    assert Good(mem, ch, Tail(i));
    var last := mem[Tail(i)].size;
    assert Good(mem, ch, last);
    PushBackWrites(mem, i, e, last);
    PushBackKeeps(mem, PushBack(mem, i, e), ch, i, e, last);
  }

  // mem' is mem after list_remove took element e from between p and s.
  ghost predicate AfterRemove(mem: Memory, mem': Memory, ch: Chain, e: nat, p: nat, s: nat) {
    && Lists(mem, ch) && HEAP <= e && |mem'| == |mem|
    && Good(mem, ch, e) && Good(mem, ch, p) && Good(mem, ch, s) && mem[e] == Ptr(p) && mem[e + 1] == Ptr(s)
    && mem'[p + 1] == Ptr(s) && mem'[s] == Ptr(p)
    && (forall a :: 0 <= a < |mem| && a != p + 1 && a != s ==> mem'[a] == mem[a])
  }

  lemma RemoveAround(mem: Memory, mem': Memory, ch: Chain, e: nat, p: nat, s: nat)
    requires AfterRemove(mem, mem', ch, e, p, s)
    ensures Good(mem', ch - {e}, p) && Good(mem', ch - {e}, s)
  {
    assert p != e && s != e && p != s;
    if p != Head(ch[p].list) { assert Good(mem, ch, mem[p].size); }
    if s != Tail(ch[s].list) { assert Good(mem, ch, mem[s + 1].size); }
  }

  lemma RemoveOther(mem: Memory, mem': Memory, ch: Chain, e: nat, p: nat, s: nat, n: nat)
    requires AfterRemove(mem, mem', ch, e, p, s) && n in ch && n != e && n != p && n != s
    ensures Good(mem', ch - {e}, n)
  {
    hide Lists;
    Neighbours(mem, ch, n);
    StaysGood(mem, mem', ch, ch - {e}, n);
  }

  lemma RemoveLists(mem: Memory, ch: Chain, e: nat)
    requires Lists(mem, ch) && e in ch && HEAP <= e
    ensures Elem(mem, e) && Elem(mem, mem[e].size) && Elem(mem, mem[e + 1].size)
    ensures Lists(Remove(mem, e), ch - {e})
  {
    assert Good(mem, ch, e);
    var p, s := mem[e].size, mem[e + 1].size;
    assert Good(mem, ch, p) && Good(mem, ch, s);
    var mem' := Remove(mem, e);
    RemoveAround(mem, mem', ch, e, p, s);
    forall n | n in ch - {e}
      ensures Good(mem', ch - {e}, n)
    {
      if n != p && n != s {
        RemoveOther(mem, mem', ch, e, p, s, n);
      }
    }
  }

  // ---------------------------------------------------------------------------------------
  // What a walk along `next` finds.

  ghost function Above(ch: Chain, n: nat): set<nat>
    requires n in ch
  {
    set m | m in ch && ch[m].rank > ch[n].rank
  }

  /** The elements met by following `next` from n up to and including the tail. */
  ghost function Walk(mem: Memory, ch: Chain, n: nat): (w: seq<nat>)
    requires Lists(mem, ch) && n in ch
    ensures |w| >= 1 && w[0] == n
    decreases Above(ch, n)
  {
    assert Good(mem, ch, n);
    if n == Tail(ch[n].list) then [n] else
      var s := mem[n + 1].size;
      assert Above(ch, s) < Above(ch, n) by { assert s in Above(ch, n) && s !in Above(ch, s); }
      [n] + Walk(mem, ch, s)
  }

  lemma DistinctCons(n: nat, w: seq<nat>)
    requires Distinct(w) && n !in w
    ensures Distinct([n] + w)
  {
  }

  // A walk stays on its list and meets each element once.
  lemma {:induction false} WalkStays(mem: Memory, ch: Chain, n: nat)
    requires Lists(mem, ch) && n in ch
    ensures forall m :: m in Walk(mem, ch, n) ==> m in ch && ch[m].list == ch[n].list && ch[n].rank <= ch[m].rank
    ensures Distinct(Walk(mem, ch, n))
    decreases Above(ch, n)
  {
    assert Good(mem, ch, n);
    if n != Tail(ch[n].list) {
      var s := mem[n + 1].size;
      assert Above(ch, s) < Above(ch, n) by { assert s in Above(ch, n) && s !in Above(ch, s); }
      WalkStays(mem, ch, s);
      DistinctCons(n, Walk(mem, ch, s));
    }
  }

  // Where a walk meets p it meets the successor of p.
  lemma {:induction false} WalkGoesOn(mem: Memory, ch: Chain, h: nat, p: nat, n: nat)
    requires Lists(mem, ch) && h in ch && p in Walk(mem, ch, h)
    requires p + 1 < |mem| && mem[p + 1] == Ptr(n) && p != Tail(ch[h].list)
    ensures n in Walk(mem, ch, h)
    decreases Above(ch, h)
  {
    assert Good(mem, ch, h);
    if h != Tail(ch[h].list) {
      var s := mem[h + 1].size;
      assert Above(ch, s) < Above(ch, h) by { assert s in Above(ch, h) && s !in Above(ch, s); }
      if p != h {
        WalkGoesOn(mem, ch, s, p, n);
      }
    }
  }

  lemma {:induction false} WalkReaches(mem: Memory, ch: Chain, i: nat, n: nat)
    requires Lists(mem, ch) && i < NUM_LISTS && n in ch && ch[n].list == i
    ensures n in Walk(mem, ch, Head(i))
    decreases ch[n].rank
  {
    if n != Head(i) {
      assert Good(mem, ch, n);
      var p := mem[n].size;
      assert Good(mem, ch, p);
      WalkReaches(mem, ch, i, p);
      WalkGoesOn(mem, ch, Head(i), p, n);
    }
  }

  /** Walking list i meets every element that belongs to it, each exactly once. */
  lemma WalkMeetsAll(mem: Memory, ch: Chain, i: nat)
    requires Lists(mem, ch) && i < NUM_LISTS
    ensures var w := Walk(mem, ch, Head(i));
      && (forall n :: n in ch && ch[n].list == i <==> n in w)
      && Distinct(w)
  {
    WalkStays(mem, ch, Head(i));
    forall n | n in ch && ch[n].list == i
      ensures n in Walk(mem, ch, Head(i))
    {
      WalkReaches(mem, ch, i, n);
    }
  }
}
