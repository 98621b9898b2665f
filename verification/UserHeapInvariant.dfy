/** The representation invariant of the user heap, which ties the boundary tags, the tiling and
    the free lists together, and what each step of the allocator does to it. */
module UserHeapInvariant {
  import opened UserHeapLists
  import opened UserHeapBlocks

  /** get_list: the index of the free list for a block of `size` words. */
  function GetList(size: nat): (i: nat)
    ensures i < NUM_LISTS
  {
    if size >= 32768 then 15
    else if size >= 16384 then 14
    else if size >= 8192 then 13
    else if size >= 4096 then 12
    else if size >= 2048 then 11
    else if size >= 1024 then 10
    else if size >= 512 then 9
    else if size >= 256 then 8
    else if size > 128 then 7
    else if size >= 64 then 6
    else if size >= 32 then 5
    else if size >= 16 then 4
    else if size >= 8 then 3
    else if size >= 4 then 2
    else if size >= 2 then 1
    else 0
  }

  // ---------------------------------------------------------------------------------------
  // Payloads.

  ghost function Payload(mem: Memory, b: nat, size: nat): seq<Word> {
    if 1 <= size && b + size <= |mem| then mem[b + 1..b + size] else []
  }

  /** The user data: block b in use owns every word after its header, the last one included. */
  ghost function Contents(mem: Memory, lay: Layout): map<nat, seq<Word>> {
    map b | b in lay && lay[b].used :: Payload(mem, b, lay[b].size)
  }

  ghost predicate InUsed(lay: Layout, a: nat) {
    exists c :: c in lay && lay[c].used && c < a < Next(lay, c)
  }

  lemma ContentsFrame(mem: Memory, mem': Memory, lay: Layout)
    requires |mem'| >= |mem|
    requires forall c :: c in lay ==> Next(lay, c) <= |mem|
    requires forall a :: 0 <= a < |mem| && mem'[a] != mem[a] ==> !InUsed(lay, a)
    ensures Contents(mem', lay) == Contents(mem, lay)
  {
    forall c | c in lay && lay[c].used
      ensures Payload(mem', c, lay[c].size) == Payload(mem, c, lay[c].size)
    {
      assert forall a :: c < a < Next(lay, c) ==> InUsed(lay, a);
    }
  }

  // ---------------------------------------------------------------------------------------
  // The invariant.

  // A free block is on the list for its size.
  ghost predicate Listed(lay: Layout, ch: Chain, b: nat) {
    b in lay && b + 1 in ch && ch[b + 1].list == GetList(lay[b].size)
  }

  // A list element is a sentinel or the element of a free block.
  ghost predicate Backed(lay: Layout, n: nat) {
    n < HEAP || (n - 1 in lay && !lay[n - 1].used)
  }

  // The lists hold the free blocks, except x while it is being handed out.
  ghost predicate Match(lay: Layout, ch: Chain, x: nat) {
    && (forall b {:trigger Listed(lay, ch, b)} :: b in lay && !lay[b].used && b != x ==> Listed(lay, ch, b))
    && (forall n {:trigger Backed(lay, n)} :: n in ch ==> Backed(lay, n))
    && x + 1 !in ch
  }

  ghost predicate Touching(lay: Layout, b: nat) {
    b in lay && Next(lay, b) in lay && !lay[b].used && !lay[Next(lay, b)].used
  }

  // No two free blocks touch, unless one of them is x.
  ghost predicate NoTouch(lay: Layout, x: nat) {
    forall b {:trigger Touching(lay, b)} :: Touching(lay, b) ==> b == x || Next(lay, b) == x
  }

  /** Everything but coalescing; block x (0 for none) is free but on no list. */
  ghost predicate Shape(mem: Memory, lay: Layout, ch: Chain, x: nat) {
    && FIRST < |mem| && Geometry(lay, |mem| - 1) && Tags(mem, lay)
    && Lists(mem, ch) && Match(lay, ch, x)
  }

  ghost predicate Inv(mem: Memory, lay: Layout, ch: Chain) {
    Shape(mem, lay, ch, 0) && NoTouch(lay, 0)
  }

  // ---------------------------------------------------------------------------------------
  // List writes fall strictly inside free blocks.

  ghost predicate Inside(lay: Layout, f: nat, n: nat) {
    f in lay && !lay[f].used && f < n && n + 1 < Next(lay, f) - 1
  }

  ghost predicate Roomy(lay: Layout, n: nat) {
    n + 1 < HEAP || exists f :: Inside(lay, f, n)
  }

  ghost predicate AllRoomy(lay: Layout, ch: Chain) {
    forall n {:trigger Roomy(lay, n)} :: n in ch ==> Roomy(lay, n)
  }

  /** What holds at every step inside an operation: tiling, tags and lists are sound, and list
      elements lie in free space, but lists and free blocks need not match. */
  ghost predicate Mid(mem: Memory, lay: Layout, ch: Chain) {
    && FIRST < |mem| && Geometry(lay, |mem| - 1) && Tags(mem, lay) && Lists(mem, ch) && AllRoomy(lay, ch)
  }

  lemma ShapeMid(mem: Memory, lay: Layout, ch: Chain, x: nat)
    requires Shape(mem, lay, ch, x)
    ensures Mid(mem, lay, ch)
  {
    forall n | n in ch ensures Roomy(lay, n) {
      assert Backed(lay, n) && Good(mem, ch, n);
      if n >= HEAP {
        assert Tile(lay, |mem| - 1, n - 1);
        assert Inside(lay, n - 1, n);
      }
    }
  }

  // A word of free space is neither a tag nor user data.
  lemma RoomyWord(lay: Layout, end: nat, n: nat, a: nat)
    requires Geometry(lay, end) && Roomy(lay, n) && (a == n || a == n + 1)
    ensures Untagged(lay, a) && !InUsed(lay, a)
  {
    if n + 1 < HEAP {
      forall c | c in lay ensures HEAP <= c { assert Tile(lay, end, c); }
    } else {
      var f :| Inside(lay, f, n);
      forall c | c in lay && lay[c].used ensures !(c < a < Next(lay, c)) {
        Elsewhere(lay, end, f, c);
      }
    }
  }

  // A write to words of free space keeps the tags and the user data.
  lemma RoomyWrite(mem: Memory, mem': Memory, lay: Layout)
    requires FIRST < |mem| && Geometry(lay, |mem| - 1) && Tags(mem, lay) && |mem'| == |mem|
    requires forall a :: 0 <= a < |mem| && mem'[a] != mem[a] ==>
      exists n: nat :: Roomy(lay, n) && (a == n || a == n + 1)
    ensures Tags(mem', lay) && Contents(mem', lay) == Contents(mem, lay)
  {
    forall a | 0 <= a < |mem| && mem'[a] != mem[a]
      ensures Untagged(lay, a) && !InUsed(lay, a)
    {
      var n: nat :| Roomy(lay, n) && (a == n || a == n + 1);
      RoomyWord(lay, |mem| - 1, n, a);
    }
    TagsFrame(mem, mem', lay);
    forall c | c in lay ensures Next(lay, c) <= |mem| { assert Tile(lay, |mem| - 1, c); }
    ContentsFrame(mem, mem', lay);
  }

  lemma RemoveStep(mem: Memory, lay: Layout, ch: Chain, e: nat)
    requires Mid(mem, lay, ch) && e in ch && HEAP <= e
    ensures Elem(mem, e) && Elem(mem, mem[e].size) && Elem(mem, mem[e + 1].size)
    ensures var r := Remove(mem, e);
      Mid(r, lay, ch - {e}) && Contents(r, lay) == Contents(mem, lay)
  {
    RemoveLists(mem, ch, e);
    var p, s := mem[e].size, mem[e + 1].size;
    assert Good(mem, ch, e);
    assert Roomy(lay, p) && Roomy(lay, s);
    RoomyWrite(mem, Remove(mem, e), lay);
  }

  lemma PushStep(mem: Memory, lay: Layout, ch: Chain, i: nat, e: nat)
    requires Mid(mem, lay, ch)
    requires e !in ch && HEAP <= e && e % 2 == 0 && i < NUM_LISTS && Elem(mem, e) && Roomy(lay, e)
    ensures Elem(mem, mem[Tail(i)].size)
    ensures var r := PushBack(mem, i, e);
      Mid(r, lay, Pushed(ch, i, e)) && Contents(r, lay) == Contents(mem, lay)
  {
    PushBackLists(mem, ch, i, e);
    assert Good(mem, ch, Tail(i));
    var last := mem[Tail(i)].size;
    assert Roomy(lay, last) && Roomy(lay, Tail(i));
    RoomyWrite(mem, PushBack(mem, i, e), lay);
  }

  // A write to tag words keeps the lists.
  lemma TagWriteLists(mem: Memory, mem': Memory, lay: Layout, end: nat, ch: Chain)
    requires Geometry(lay, end) && Lists(mem, ch) && AllRoomy(lay, ch) && |mem'| >= |mem|
    requires forall a :: 0 <= a < |mem| && mem'[a] != mem[a] ==> !Untagged(lay, a)
    ensures Lists(mem', ch)
  {
    forall n | n in ch
      ensures n + 1 < |mem| && mem'[n] == mem[n] && mem'[n + 1] == mem[n + 1]
    {
      assert Roomy(lay, n) && Good(mem, ch, n);
      RoomyWord(lay, end, n, n);
      RoomyWord(lay, end, n, n + 1);
    }
    ListsFrame(mem, mem', ch);
  }

  // ---------------------------------------------------------------------------------------
  // Coalescing.

  // Absorbing the right neighbour turns no word of free space into a tag or user data.
  lemma MergedRoomy(lay: Layout, end: nat, ch: Chain, b: nat)
    requires Geometry(lay, end) && AllRoomy(lay, ch) && Touching(lay, b)
    ensures AllRoomy(Merged(lay, b), ch)
  {
    var lay', q := Merged(lay, b), Next(lay, b);
    assert Tile(lay, end, b) && Tile(lay, end, q);
    forall n | n in ch ensures Roomy(lay', n) {
      assert Roomy(lay, n);
      if n + 1 >= HEAP {
        var f :| Inside(lay, f, n);
        if f == q { assert Inside(lay', b, n); } else { assert Inside(lay', f, n); }
      }
    }
  }

  // The words that mark_block_free writes for the merged block are tags of the old tiling.
  lemma MergedWrites(lay: Layout, end: nat, b: nat, a: nat)
    requires Geometry(lay, end) && Touching(lay, b)
    requires var q := Next(lay, b); a == b || a == Next(lay, q) - 1 || a == Next(lay, q)
    ensures !Untagged(lay, a) && !InUsed(lay, a)
  {
    var q := Next(lay, b);
    TagWord(lay, end, b);
    TagWord(lay, end, q);
    assert Tile(lay, end, b) && Tile(lay, end, q);
    forall c | c in lay && lay[c].used ensures !(c < a < Next(lay, c)) {
      Elsewhere(lay, end, b, c);
      Elsewhere(lay, end, q, c);
    }
  }

  /** mark_block_free over a free block and its free right neighbour. */
  lemma MergeMark(mem: Memory, lay: Layout, ch: Chain, b: nat)
    requires Mid(mem, lay, ch) && Touching(lay, b)
    ensures var size := lay[b].size + lay[Next(lay, b)].size;
      && 1 < size && b + size < |mem|
      && var r, lay' := MarkFree(mem, b, size), Merged(lay, b);
      && Mid(r, lay', ch) && Contents(r, lay') == Contents(mem, lay)
  {
    hide Tags, AllRoomy, Lists, Contents, Untagged, InUsed;
    var end := |mem| - 1;
    MergedGeometry(lay, end, b);
    MergedTags(mem, lay, b);
    MergedRoomy(lay, end, ch, b);
    var r := MarkFree(mem, b, lay[b].size + lay[Next(lay, b)].size);
    forall a | 0 <= a < |mem| && r[a] != mem[a]
      ensures !Untagged(lay, a) && !InUsed(lay, a)
    {
      MergedWrites(lay, end, b, a);
    }
    TagWriteLists(mem, r, lay, end, ch);
    forall c | c in lay ensures Next(lay, c) <= |mem| { assert Tile(lay, end, c); }
    ContentsFrame(mem, r, lay);
    MergedContents(r, lay, b);
  }

  lemma MergedContents(mem: Memory, lay: Layout, b: nat)
    requires Touching(lay, b)
    ensures Contents(mem, Merged(lay, b)) == Contents(mem, lay)
  {
  }

  // Lists and free blocks match again once the elements of the absorbed blocks are gone and the
  // merged block p is on the list for its size.
  lemma Rematch(lay: Layout, lay': Layout, ch: Chain, gone: set<nat>, p: nat, i: nat)
    requires Match(lay, ch, 0) && HEAP <= p && p in lay' && !lay'[p].used && p + 1 in gone
    requires forall c :: c in lay' && c != p ==> c in lay && lay'[c] == lay[c] && c != 0 && c + 1 !in gone
    requires forall c :: c in lay && c !in lay' ==> c + 1 in gone
    requires i == GetList(lay'[p].size) && Tail(i) in ch && ch[Tail(i)].list == i && Tail(i) < HEAP && Tail(i) !in gone
    ensures Match(lay', Pushed(ch - gone, i, p + 1), 0)
  {
    var ch' := Pushed(ch - gone, i, p + 1);
    forall c | c in lay' && !lay'[c].used ensures Listed(lay', ch', c) {
      if c != p { assert Listed(lay, ch, c); }
    }
    forall n | n in ch' ensures Backed(lay', n) {
      if n != p + 1 { assert Backed(lay, n); }
    }
  }

  lemma ElemEven(b: nat)
    requires Aligned(b)
    ensures (b + 1) % 2 == 0
  {
  }

  // The element of a free block may go on a list.
  lemma FreeElem(mem: Memory, lay: Layout, b: nat)
    requires FIRST < |mem| && Geometry(lay, |mem| - 1) && b in lay && !lay[b].used
    ensures HEAP <= b + 1 && (b + 1) % 2 == 0 && Elem(mem, b + 1) && Roomy(lay, b + 1)
  {
    assert Tile(lay, |mem| - 1, b);
    ElemEven(b);
    assert Inside(lay, b, b + 1);
  }

  // ---------------------------------------------------------------------------------------
  // Freeing a block.

  lemma RetaggedRoomy(lay: Layout, ch: Chain, b: nat)
    requires AllRoomy(lay, ch) && b in lay
    ensures AllRoomy(Retagged(lay, b, false), ch)
  {
    forall n | n in ch ensures Roomy(Retagged(lay, b, false), n) {
      assert Roomy(lay, n);
      if n + 1 >= HEAP {
        var f :| Inside(lay, f, n);
        assert Inside(Retagged(lay, b, false), f, n);
      }
    }
  }

  // The element of a block in use is on no list.
  lemma UsedUnlisted(mem: Memory, lay: Layout, ch: Chain, b: nat)
    requires Shape(mem, lay, ch, 0) && b in lay && lay[b].used
    ensures b + 1 !in ch
  {
    assert Tile(lay, |mem| - 1, b);
    forall n | n in ch ensures n != b + 1 { assert Backed(lay, n); }
  }

  /** list_push_back of a block that is still marked used: tags and the other payloads survive. */
  lemma FreePush(mem: Memory, lay: Layout, ch: Chain, b: nat, i: nat)
    requires Shape(mem, lay, ch, 0) && b in lay && lay[b].used && i < NUM_LISTS
    ensures Elem(mem, b + 1) && Elem(mem, mem[Tail(i)].size)
    ensures var r := PushBack(mem, i, b + 1);
      && Tags(r, lay) && Lists(r, Pushed(ch, i, b + 1)) && AllRoomy(Retagged(lay, b, false), Pushed(ch, i, b + 1))
      && Contents(r, Retagged(lay, b, false)) == Contents(mem, lay) - {b}
  {
    hide Tags, Lists, Match;
    var end, lay' := |mem| - 1, Retagged(lay, b, false);
    assert Tile(lay, end, b);
    UsedUnlisted(mem, lay, ch, b);
    ShapeMid(mem, lay, ch, 0);
    RetaggedGeometry(lay, end, b, false);
    RetaggedRoomy(lay, ch, b);
    FreeElem(mem, lay', b);
    PushBackLists(mem, ch, i, b + 1);
    FreePushWrites(mem, lay, ch, b, i);
    var r := PushBack(mem, i, b + 1);
    TagsFrame(mem, r, lay);
    forall c | c in lay' ensures Next(lay', c) <= |mem| { assert Tile(lay, end, c); }
    ContentsFrame(mem, r, lay');
    assert Contents(mem, lay') == Contents(mem, lay) - {b};
  }

  lemma FreePushWrites(mem: Memory, lay: Layout, ch: Chain, b: nat, i: nat)
    requires Mid(mem, lay, ch) && b in lay && i < NUM_LISTS && Elem(mem, mem[Tail(i)].size)
    requires Geometry(Retagged(lay, b, false), |mem| - 1) && AllRoomy(Retagged(lay, b, false), ch) && Elem(mem, b + 1)
    requires Roomy(Retagged(lay, b, false), b + 1)
    ensures var r := PushBack(mem, i, b + 1);
      forall a :: 0 <= a < |mem| && r[a] != mem[a] ==> Untagged(lay, a) && !InUsed(Retagged(lay, b, false), a)
  {
    var r, lay' := PushBack(mem, i, b + 1), Retagged(lay, b, false);
    assert Good(mem, ch, Tail(i));
    var last := mem[Tail(i)].size;
    assert Roomy(lay', last) && Roomy(lay', Tail(i));
    forall a | 0 <= a < |mem| && r[a] != mem[a] ensures Untagged(lay, a) && !InUsed(lay', a) {
      var n := if a == b + 1 || a == b + 2 then b + 1 else if a == last + 1 then last else Tail(i);
      RoomyWord(lay', |mem| - 1, n, a);
      RetaggedUntagged(lay, b, a);
    }
  }

  lemma RetaggedUntagged(lay: Layout, b: nat, a: nat)
    requires b in lay && Untagged(Retagged(lay, b, false), a)
    ensures Untagged(lay, a)
  {
    if a >= HEAP {
      var c :| c in lay && c < a < Next(Retagged(lay, b, false), c) - 1;
      assert c in lay && c < a < Next(lay, c) - 1;
    }
  }

  /** mark_block_free of that block. */
  lemma FreeMark(mem: Memory, lay: Layout, ch: Chain, b: nat)
    requires FIRST < |mem| && Geometry(lay, |mem| - 1) && Tags(mem, lay) && Lists(mem, ch) && b in lay
    requires AllRoomy(Retagged(lay, b, false), ch)
    ensures 1 < lay[b].size && Next(lay, b) < |mem|
    ensures var r, lay' := MarkFree(mem, b, lay[b].size), Retagged(lay, b, false);
      Mid(r, lay', ch) && Contents(r, lay') == Contents(mem, lay')
  {
    var end, lay' := |mem| - 1, Retagged(lay, b, false);
    assert Tile(lay, end, b);
    RetaggedGeometry(lay, end, b, false);
    FreedTags(mem, lay, b);
    var r := MarkFree(mem, b, lay[b].size);
    TagWord(lay', end, b);
    TagWriteLists(mem, r, lay', end, ch);
    forall c | c in lay' ensures Next(lay', c) <= |mem| { assert Tile(lay', end, c); }
    forall a | 0 <= a < |mem| && r[a] != mem[a] ensures !InUsed(lay', a) {
      forall c | c in lay' && lay'[c].used ensures !(c < a < Next(lay', c)) { Elsewhere(lay', end, b, c); }
    }
    ContentsFrame(mem, r, lay');
  }

  lemma FreedMatch(lay: Layout, end: nat, ch: Chain, b: nat, i: nat)
    requires Geometry(lay, end) && Match(lay, ch, 0) && b in lay && lay[b].used && b + 1 !in ch
    requires i == GetList(lay[b].size) && Tail(i) in ch && ch[Tail(i)].list == i
    ensures Match(Retagged(lay, b, false), Pushed(ch, i, b + 1), 0)
  {
    var lay', ch' := Retagged(lay, b, false), Pushed(ch, i, b + 1);
    assert Tile(lay, end, b);
    forall c | c in lay' && !lay'[c].used ensures Listed(lay', ch', c) {
      if c != b { assert Tile(lay, end, c) && Listed(lay, ch, c); }
    }
    forall n | n in ch' ensures Backed(lay', n) {
      if n != b + 1 { assert Backed(lay, n); }
    }
  }

  // Only the freed block can touch a free neighbour.
  lemma FreedNoTouch(lay: Layout, b: nat)
    requires NoTouch(lay, 0) && b in lay && 0 !in lay
    ensures NoTouch(Retagged(lay, b, false), b)
  {
    var lay' := Retagged(lay, b, false);
    forall c | Touching(lay', c) ensures c == b || Next(lay', c) == b {
      if c != b && Next(lay', c) != b { assert Touching(lay, c); }
    }
  }

  // ---------------------------------------------------------------------------------------
  // Handing out a free block that has been taken off its list.

  lemma Unlisted(mem: Memory, lay: Layout, ch: Chain, b: nat)
    requires Shape(mem, lay, ch, 0) && b in lay && !lay[b].used
    ensures b + 1 in ch && HEAP <= b + 1 && Match(lay, ch - {b + 1}, b)
  {
    assert Tile(lay, |mem| - 1, b) && Listed(lay, ch, b);
    forall c | c in lay ensures c != 0 { assert Tile(lay, |mem| - 1, c); }
    UnlistedMatch(lay, ch, b);
  }

  lemma UnlistedMatch(lay: Layout, ch: Chain, b: nat)
    requires Match(lay, ch, 0) && 0 !in lay
    ensures Match(lay, ch - {b + 1}, b)
  {
    hide Backed;
    var ch' := ch - {b + 1};
    forall c | c in lay && !lay[c].used && c != b ensures Listed(lay, ch', c) {
      UnlistedOther(lay, ch, b, c);
    }
    forall n | n in ch' ensures Backed(lay, n) { assert n in ch; }
  }

  lemma UnlistedOther(lay: Layout, ch: Chain, b: nat, c: nat)
    requires Match(lay, ch, 0) && 0 !in lay && c in lay && !lay[c].used && c != b
    ensures Listed(lay, ch - {b + 1}, c)
  {
    assert Listed(lay, ch, c);
  }

  // Elements of listed blocks lie outside block b and its right neighbour's header.
  lemma ElemsOutside(mem: Memory, lay: Layout, ch: Chain, b: nat, n: nat)
    requires Shape(mem, lay, ch, b) && b in lay && n in ch
    ensures n + 1 < b || n > Next(lay, b)
  {
    assert Tile(lay, |mem| - 1, b) && Backed(lay, n) && Good(mem, ch, n);
    if n >= HEAP {
      Elsewhere(lay, |mem| - 1, b, n - 1);
    }
  }

  // Writing only from the header of b up to the next header keeps the lists and the user data.
  lemma BlockWrite(mem: Memory, mem': Memory, lay: Layout, ch: Chain, b: nat)
    requires Shape(mem, lay, ch, b) && b in lay && !lay[b].used && |mem'| == |mem|
    requires forall a :: 0 <= a < |mem| && mem'[a] != mem[a] ==> b <= a <= Next(lay, b)
    ensures Lists(mem', ch) && Contents(mem', lay) == Contents(mem, lay)
  {
    var end := |mem| - 1;
    forall n | n in ch
      ensures n + 1 < |mem| && mem'[n] == mem[n] && mem'[n + 1] == mem[n + 1]
    {
      assert Good(mem, ch, n);
      ElemsOutside(mem, lay, ch, b, n);
    }
    ListsFrame(mem, mem', ch);
    forall c | c in lay ensures Next(lay, c) <= |mem| { assert Tile(lay, end, c); }
    forall a | 0 <= a < |mem| && mem'[a] != mem[a] ensures !InUsed(lay, a) {
      forall c | c in lay && lay[c].used ensures !(c < a < Next(lay, c)) { Elsewhere(lay, end, b, c); }
    }
    ContentsFrame(mem, mem', lay);
  }

  /** The whole block is handed out. */
  lemma PlaceWhole(mem: Memory, lay: Layout, ch: Chain, b: nat)
    requires Shape(mem, lay, ch, b) && b in lay && !lay[b].used && NoTouch(lay, 0) && 1 !in ch && 0 !in lay
    ensures 0 < lay[b].size && Next(lay, b) < |mem|
    ensures var r, lay' := MarkUsed(mem, b, lay[b].size), Retagged(lay, b, true);
      Inv(r, lay', ch) && Contents(r, lay') == Contents(mem, lay)[b := Payload(r, b, lay[b].size)]
  {
    hide Tags, Lists, Match, NoTouch;
    var end, lay' := |mem| - 1, Retagged(lay, b, true);
    assert Tile(lay, end, b);
    RetaggedGeometry(lay, end, b, true);
    UsedTags(mem, lay, b);
    var r := MarkUsed(mem, b, lay[b].size);
    BlockWrite(mem, r, lay, ch, b);
    assert Contents(r, lay') == Contents(r, lay)[b := Payload(r, b, lay[b].size)];
    PlacedMatch(lay, ch, b);
  }

  lemma PlacedMatch(lay: Layout, ch: Chain, b: nat)
    requires Match(lay, ch, b) && NoTouch(lay, 0) && b in lay && !lay[b].used && 1 !in ch && 0 !in lay
    ensures Match(Retagged(lay, b, true), ch, 0) && NoTouch(Retagged(lay, b, true), 0)
  {
    var lay' := Retagged(lay, b, true);
    forall c | c in lay' && !lay'[c].used ensures Listed(lay', ch, c) { assert Listed(lay, ch, c); }
    forall n | n in ch ensures Backed(lay', n) { assert Backed(lay, n); }
    forall c | Touching(lay', c) ensures c == 0 || Next(lay', c) == 0 { assert Touching(lay, c); }
  }

  lemma SplitRoomy(mem: Memory, lay: Layout, ch: Chain, b: nat, size: nat)
    requires Shape(mem, lay, ch, b) && b in lay && size < lay[b].size
    ensures b + size !in lay ==> AllRoomy(Split(lay, b, size), ch)
  {
    if b + size !in lay {
      forall n | n in ch ensures Roomy(Split(lay, b, size), n) {
        assert Backed(lay, n) && Good(mem, ch, n);
        if n >= HEAP {
          assert Tile(lay, |mem| - 1, n - 1);
          assert Inside(Split(lay, b, size), n - 1, n);
        }
      }
    }
  }

  /** The first `size` words are handed out, the rest becomes a free block that is on no list yet. */
  lemma PlaceSplit(mem: Memory, lay: Layout, ch: Chain, b: nat, size: nat)
    requires Shape(mem, lay, ch, b) && b in lay && !lay[b].used && size % 4 == 0
    requires MIN_BLOCK_SIZE_WORDS <= size && size + MIN_BLOCK_SIZE_WORDS <= lay[b].size
    ensures Next(lay, b) < |mem|
    ensures var r, lay' := MarkFree(MarkUsed(mem, b, size), b + size, lay[b].size - size), Split(lay, b, size);
      Mid(r, lay', ch) && Contents(r, lay') == Contents(mem, lay)[b := Payload(r, b, size)]
  {
    hide Tags, Match, AllRoomy, Lists;
    var end := |mem| - 1;
    assert Tile(lay, end, b);
    SplitGeometry(lay, end, b, size);
    SplitTags(mem, lay, b, size);
    SplitRoomy(mem, lay, ch, b, size);
    var r := MarkFree(MarkUsed(mem, b, size), b + size, lay[b].size - size);
    BlockWrite(mem, r, lay, ch, b);
    assert Contents(r, Split(lay, b, size)) == Contents(r, lay)[b := Payload(r, b, size)];
  }

  lemma SplitMatch(lay: Layout, end: nat, ch: Chain, b: nat, size: nat, i: nat)
    requires Geometry(lay, end) && Match(lay, ch, b) && b in lay && !lay[b].used && size < lay[b].size
    requires b + size !in lay && 1 !in ch && FIRST <= b + size
    requires i == GetList(lay[b].size - size) && Tail(i) in ch && ch[Tail(i)].list == i
    ensures b + size + 1 !in ch
    ensures Match(Split(lay, b, size), Pushed(ch, i, b + size + 1), 0)
  {
    var q, lay', ch' := b + size, Split(lay, b, size), Pushed(ch, i, b + size + 1);
    forall n | n in ch
      ensures n != q + 1 && (n < HEAP || (n - 1 in lay' && !lay'[n - 1].used))
    {
      assert Backed(lay, n);
    }
    forall c | c in lay' && !lay'[c].used ensures Listed(lay', ch', c) {
      if c != q { assert Tile(lay, end, c) && Listed(lay, ch, c); }
    }
    forall n | n in ch' ensures Backed(lay', n) { }
  }

  lemma NothingTouches(lay: Layout, end: nat)
    requires Geometry(lay, end) && NoTouch(lay, 0)
    ensures forall c :: !Touching(lay, c)
  {
    forall c ensures !Touching(lay, c) {
      if c in lay {
        assert Tile(lay, end, c);
      }
    }
  }

  // Block b was free, so nothing next to it is, and the rest of it touches nothing free.
  lemma SplitNoTouch(lay: Layout, end: nat, b: nat, size: nat)
    requires Geometry(lay, end) && NoTouch(lay, 0) && b in lay && !lay[b].used && size < lay[b].size && b + size !in lay
    ensures NoTouch(Split(lay, b, size), b + size)
  {
    var lay' := Split(lay, b, size);
    NothingTouches(lay, end);
    forall c | Touching(lay', c) ensures c == b + size || Next(lay', c) == b + size {
      assert !Touching(lay, c);
    }
  }

  // ---------------------------------------------------------------------------------------
  // Growing the heap.

  ghost function Grown(mem: Memory, words: nat, fresh': Memory): (r: Memory)
    requires |mem| >= 1 && words > 1 && |fresh'| == words
  {
    MarkFree(mem + fresh', |mem| - 1, words)[|mem| - 1 + words := FENCE]
  }

  lemma Extend(mem: Memory, lay: Layout, ch: Chain, words: nat, fresh': Memory)
    requires Shape(mem, lay, ch, 0) && words >= MIN_BLOCK_SIZE_WORDS && words % 4 == 0 && |fresh'| == words
    ensures var r, b := Grown(mem, words, fresh'), |mem| - 1;
      && b !in lay && Mid(r, Extended(lay, b, words), ch)
      && Contents(r, Extended(lay, b, words)) == Contents(mem, lay)
  {
    var r, b := Grown(mem, words, fresh'), |mem| - 1;
    var lay' := Extended(lay, b, words);
    assert |r| - 1 == b + words;
    ExtendedGeometry(lay, b, words);
    ExtendedTags(mem, lay, words, fresh');
    ShapeMid(mem, lay, ch, 0);
    forall n | n in ch ensures Roomy(lay', n) {
      assert Roomy(lay, n);
      if n + 1 >= HEAP {
        var f :| Inside(lay, f, n);
        assert Inside(lay', f, n);
      }
    }
    assert forall a :: 0 <= a < b ==> r[a] == mem[a];
    EndTags(lay, b);
    TagWriteLists(mem, r, lay, b, ch);
    forall c | c in lay ensures Next(lay, c) <= b { assert Tile(lay, b, c); }
    ContentsFrame(mem, r, lay);
    assert Contents(r, lay') == Contents(r, lay);
  }

  lemma ExtendedMatch(lay: Layout, end: nat, ch: Chain, words: nat, i: nat)
    requires Geometry(lay, end) && Match(lay, ch, 0) && end !in lay
    requires i == GetList(words) && Tail(i) in ch && ch[Tail(i)].list == i
    ensures end + 1 !in ch
    ensures Match(Extended(lay, end, words), Pushed(ch, i, end + 1), 0)
  {
    var lay', ch' := Extended(lay, end, words), Pushed(ch, i, end + 1);
    forall n | n in ch
      ensures n != end + 1 && (n < HEAP || (n - 1 in lay && !lay[n - 1].used))
    {
      assert Backed(lay, n);
    }
    forall c | c in lay' && !lay'[c].used ensures Listed(lay', ch', c) {
      if c != end { assert Tile(lay, end, c) && Listed(lay, ch, c); }
    }
    forall n | n in ch' ensures Backed(lay', n) { }
  }

  lemma ExtendedNoTouch(lay: Layout, end: nat, words: nat)
    requires Geometry(lay, end) && NoTouch(lay, 0) && end !in lay
    ensures NoTouch(Extended(lay, end, words), end)
  {
    var lay' := Extended(lay, end, words);
    NothingTouches(lay, end);
    forall c | Touching(lay', c) ensures c == end || Next(lay', c) == end {
      assert !Touching(lay, c);
    }
  }

  // ---------------------------------------------------------------------------------------
  // Coalescing, continued.

  /** mark_block_free over three free blocks in a row. */
  lemma MergeMarkThree(mem: Memory, lay: Layout, ch: Chain, p: nat)
    requires Mid(mem, lay, ch) && Touching(lay, p) && Touching(lay, Next(lay, p))
    ensures var b := Next(lay, p); var q := Next(lay, b);
      var size := lay[p].size + lay[b].size + lay[q].size;
      && 1 < size && p + size < |mem| && Touching(Merged(lay, p), p)
      && var r, lay' := MarkFree(mem, p, size), Merged(Merged(lay, p), p);
      && Mid(r, lay', ch) && Contents(r, lay') == Contents(mem, lay)
  {
    hide Tags, Lists, AllRoomy, Contents;
    var end, b := |mem| - 1, Next(lay, p);
    var q, lay1 := Next(lay, b), Merged(lay, p);
    assert Tile(lay, end, p) && Tile(lay, end, b) && Tile(lay, end, q);
    MergeMark(mem, lay, ch, p);
    var r1 := MarkFree(mem, p, lay[p].size + lay[b].size);
    assert Next(lay1, p) == q && lay1[q] == lay[q];
    MergeMark(r1, lay1, ch, p);
    var size := lay[p].size + lay[b].size + lay[q].size;
    var r2, lay2, r := MarkFree(r1, p, size), Merged(lay1, p), MarkFree(mem, p, size);
    MergeThreeTags(mem, r1, r2, r, lay, ch, p);
  }

  lemma MergeThreeWrites(mem: Memory, lay: Layout, p: nat)
    requires Touching(lay, p) && Touching(lay, Next(lay, p)) && Next(lay, Next(lay, Next(lay, p))) < |mem|
    requires lay[p].size > 1 && lay[Next(lay, p)].size > 1 && lay[Next(lay, Next(lay, p))].size > 1
    ensures var b := Next(lay, p); var q := Next(lay, b); var size := lay[p].size + lay[b].size + lay[q].size;
      var r2, r := MarkFree(MarkFree(mem, p, lay[p].size + lay[b].size), p, size), MarkFree(mem, p, size);
      |r| == |r2| == |mem| && forall a :: 0 <= a < |mem| && r[a] != r2[a] ==> a == q - 1 || a == q
  {
  }

  // Marking in one go differs from marking pair by pair only inside the merged block.
  lemma MergeThreeTags(mem: Memory, r1: Memory, r2: Memory, r: Memory, lay: Layout, ch: Chain, p: nat)
    requires Mid(mem, lay, ch) && Touching(lay, p) && Touching(lay, Next(lay, p)) && Touching(Merged(lay, p), p)
    requires var end, b := |mem| - 1, Next(lay, p); var q := Next(lay, b);
      Tile(lay, end, p) && Tile(lay, end, b) && Tile(lay, end, q)
    requires var b := Next(lay, p); var size := lay[p].size + lay[b].size + lay[Next(lay, b)].size;
      && r1 == MarkFree(mem, p, lay[p].size + lay[b].size) && r2 == MarkFree(r1, p, size) && r == MarkFree(mem, p, size)
    requires Mid(r2, Merged(Merged(lay, p), p), ch) && Contents(r2, Merged(Merged(lay, p), p)) == Contents(mem, lay)
    ensures Mid(r, Merged(Merged(lay, p), p), ch) && Contents(r, Merged(Merged(lay, p), p)) == Contents(mem, lay)
  {
    hide Tags, Lists, AllRoomy, Contents, MarkFree;
    var end, b, lay2 := |mem| - 1, Next(lay, p), Merged(Merged(lay, p), p);
    MergeThreeWrites(mem, lay, p);
    forall a | 0 <= a < |mem| && r[a] != r2[a]
      ensures Untagged(lay2, a) && !InUsed(lay2, a)
    {
      assert p < a < Next(lay2, p) - 1;
      forall c | c in lay2 && lay2[c].used ensures !(c < a < Next(lay2, c)) { Elsewhere(lay2, end, p, c); }
    }
    TagsFrame(r2, r, lay2);
    forall c | c in lay2 ensures Next(lay2, c) <= |mem| { assert Tile(lay2, end, c); }
    ContentsFrame(r2, r, lay2);
    MergeThreeLists(mem, lay, ch, p);
  }

  lemma MergeThreeLists(mem: Memory, lay: Layout, ch: Chain, p: nat)
    requires Mid(mem, lay, ch) && Touching(lay, p) && Touching(lay, Next(lay, p))
    requires Next(lay, Next(lay, Next(lay, p))) < |mem|
    requires lay[p].size > 1
    ensures var size := Next(lay, Next(lay, Next(lay, p))) - p; Lists(MarkFree(mem, p, size), ch)
  {
    TagWord(lay, |mem| - 1, p);
    TagWord(lay, |mem| - 1, Next(lay, Next(lay, p)));
    TagWriteLists(mem, MarkFree(mem, p, Next(lay, Next(lay, Next(lay, p))) - p), lay, |mem| - 1, ch);
  }

  // Absorbing the right neighbour leaves only the merged block in doubt.
  lemma MergedNoTouch(lay: Layout, end: nat, x: nat, p: nat)
    requires Geometry(lay, end) && NoTouch(lay, x) && Touching(lay, p) && (p == x || Next(lay, p) == x)
    ensures NoTouch(Merged(lay, p), p)
  {
    var lay' := Merged(lay, p);
    assert Tile(lay, end, p);
    forall c | Touching(lay', c) ensures c == p || Next(lay', c) == p {
      if c != p && Next(lay', c) != p { assert Touching(lay, c); }
    }
  }

  ghost predicate LeftUsed(lay: Layout, p: nat) {
    forall c :: c in lay && Next(lay, c) == p ==> lay[c].used
  }

  ghost predicate RightUsed(lay: Layout, p: nat)
    requires p in lay
  {
    Next(lay, p) in lay ==> lay[Next(lay, p)].used
  }

  // A free block between neighbours in use leaves no two free blocks touching.
  lemma Settled(lay: Layout, p: nat)
    requires p in lay && NoTouch(lay, p) && LeftUsed(lay, p) && RightUsed(lay, p)
    ensures NoTouch(lay, 0)
  {
    forall c ensures !Touching(lay, c) { }
  }

  lemma MergedSettled(lay: Layout, end: nat, x: nat, p: nat)
    requires Geometry(lay, end) && NoTouch(lay, x) && Touching(lay, p) && (p == x || Next(lay, p) == x)
    requires LeftUsed(lay, p) && RightUsed(lay, Next(lay, p))
    ensures NoTouch(Merged(lay, p), 0)
  {
    var lay' := Merged(lay, p);
    assert Tile(lay, end, p) && Tile(lay, end, Next(lay, p));
    MergedNoTouch(lay, end, x, p);
    forall c | c in lay' && Next(lay', c) == p ensures lay'[c].used {
      assert Next(lay, c) == p;
    }
    Settled(lay', p);
  }

  // ---------------------------------------------------------------------------------------
  // Reading the tags.

  lemma ReadBlock(mem: Memory, lay: Layout, ch: Chain, x: nat, b: nat)
    requires Shape(mem, lay, ch, x) && b in lay
    ensures Tile(lay, |mem| - 1, b) && mem[b].size == lay[b].size && mem[b].inuse == lay[b].used
    ensures mem[b].pinuse ==> LeftUsed(lay, b)
    ensures Next(lay, b) in lay <==> Next(lay, b) != |mem| - 1
    ensures Next(lay, b) in lay ==>
      mem[Next(lay, b)].inuse == lay[Next(lay, b)].used && mem[Next(lay, b)].size == lay[Next(lay, b)].size
    ensures Next(lay, b) !in lay ==> mem[Next(lay, b)].inuse
  {
    var end := |mem| - 1;
    assert Tile(lay, end, b) && Tagged(mem, lay, b);
    forall c | c in lay ensures Next(lay, c) == b ==> mem[b].pinuse == lay[c].used { assert Tagged(mem, lay, c); }
    if Next(lay, b) in lay { assert Tagged(mem, lay, Next(lay, b)) && Tile(lay, end, Next(lay, b)); }
  }

  /** prev_blk: when pinuse is clear, the word before the header is the footer of a free block. */
  lemma PrevBlock(mem: Memory, lay: Layout, ch: Chain, x: nat, b: nat)
    requires Shape(mem, lay, ch, x) && b in lay && b < |mem| && !mem[b].pinuse
    ensures 0 < b && 0 < mem[b - 1].size <= b
    ensures var p := b - mem[b - 1].size; p in lay && Next(lay, p) == b && !lay[p].used
  {
    assert b != FIRST && Follows(lay, b);
    var p :| p in lay && Next(lay, p) == b;
    assert Tagged(mem, lay, p) && Tile(lay, |mem| - 1, p);
  }
}
